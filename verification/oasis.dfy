/** Day 9: predicting the next (first part) and the previous (second part)
    reading of a sequence from its table of repeated differences. */
module Oasis {
  import opened Results

  /** Taking the first or last entry of an empty row raises IndexError. */
  datatype OasisError = EmptyRow

  /** The differences of neighbouring readings. */
  function Derivative(v: seq<int>): (r: seq<int>)
    ensures |r| == if v == [] then 0 else |v| - 1
  {
    if |v| <= 1 then [] else [v[1] - v[0]] + Derivative(v[1..])
  }

  /** Entry i of the difference row is v[i + 1] - v[i]. */
  lemma {:induction false} DerivativeAt(v: seq<int>, i: int)
    requires 0 <= i < |v| - 1
    ensures Derivative(v)[i] == v[i + 1] - v[i]
    decreases i
  {
    if i > 0 {
      DerivativeAt(v[1..], i - 1);
    }
  }

  /** Python's any() on a row of integers. */
  predicate AnyNonZero(v: seq<int>) {
    exists i | 0 <= i < |v| :: v[i] != 0
  }

  predicate AllZero(v: seq<int>) {
    forall j | 0 <= j < |v| :: v[j] == 0
  }

  /** The rows of repeated differences, stopping at the first row that has
      no non-zero entry (an empty row included). */
  function Table(v: seq<int>): (t: seq<seq<int>>)
    ensures 1 <= |t| <= |v| + 1 && t[0] == v
    decreases |v|
  {
    if !AnyNonZero(v) then [v] else [v] + Table(Derivative(v))
  }

  /** Each row of the table is the difference row of the one above it, every
      row but the last has a non-zero entry, and the last has none. */
  lemma {:induction false} TableShape(v: seq<int>)
    ensures forall i | 0 <= i < |Table(v)| - 1 :: AnyNonZero(Table(v)[i]) && Table(v)[i + 1] == Derivative(Table(v)[i])
    ensures !AnyNonZero(Table(v)[|Table(v)| - 1])
    decreases |v|
  {
    if AnyNonZero(v) {
      TableShape(Derivative(v));
    }
  }

  /** The table's last row is a non-empty row of zeros, so no row is empty. */
  predicate EndsInZeros(v: seq<int>) {
    Table(v)[|Table(v)| - 1] != []
  }

  /** The next reading as the difference table predicts it: a row without a
      non-zero entry continues with 0, any other row with its last entry plus
      the prediction for its differences. */
  function Next(v: seq<int>): int
    decreases |v|
  {
    if !AnyNonZero(v) then 0 else v[|v| - 1] + Next(Derivative(v))
  }

  /** The reading before the first, predicted the same way. */
  function Prev(v: seq<int>): int
    decreases |v|
  {
    if !AnyNonZero(v) then 0 else v[0] - Prev(Derivative(v))
  }

  /** Builds the difference table row by row, as the while loop does. */
  method BuildTable(values: seq<int>) returns (derivatives: seq<seq<int>>)
    ensures derivatives == Table(values)
  {
    derivatives := [values];
    while AnyNonZero(derivatives[|derivatives| - 1])
      invariant derivatives != []
      invariant derivatives[..|derivatives| - 1] + Table(derivatives[|derivatives| - 1]) == Table(values)
      decreases |derivatives[|derivatives| - 1]|
    {
      var last := derivatives[|derivatives| - 1];
      assert Table(last) == [last] + Table(Derivative(last));
      derivatives := derivatives + [Derivative(last)];
      assert derivatives[..|derivatives| - 1] == derivatives[..|derivatives| - 2] + [last];
    }
    assert Table(derivatives[|derivatives| - 1]) == [derivatives[|derivatives| - 1]];
  }

  /** Rows before the last have a non-zero entry, so only the last can be empty. */
  lemma TableLink(v: seq<int>, i: int)
    requires 0 <= i < |Table(v)| - 1
    ensures AnyNonZero(Table(v)[i]) && Table(v)[i] != []
    ensures Table(v)[i + 1] == Derivative(Table(v)[i])
  {
    TableShape(v);
  }

  /** The last row of the table holds only zeros. */
  lemma TableBottom(v: seq<int>)
    ensures !AnyNonZero(Table(v)[|Table(v)| - 1])
    ensures AllZero(Table(v)[|Table(v)| - 1])
  {
    TableShape(v);
  }

  /** Walking the table from the deepest row up, summing last entries
      (the first part's extrapolation). An empty row fails. */
  method ExtrapolateForward(values: seq<int>) returns (r: Result<int, OasisError>)
    ensures r.Ok? <==> EndsInZeros(values)
    ensures r.Ok? ==> r.value == Next(values)
  {
    var derivatives := BuildTable(values);
    var k := |derivatives| - 1;
    var advance := 0;
    var i := k;
    while i > 0
      invariant 0 <= i <= k
      invariant i == k ==> advance == 0
      invariant i < k ==> EndsInZeros(values) && advance == Next(derivatives[i + 1])
    {
      if i < k {
        TableLink(values, i);
      }
      if derivatives[i] == [] {
        return Err(EmptyRow);
      }
      if i == k {
        TableBottom(values);
        assert derivatives[i][|derivatives[i]| - 1] == 0;
      } else {
        assert Next(derivatives[i]) == derivatives[i][|derivatives[i]| - 1] + Next(derivatives[i + 1]);
      }
      advance := advance + derivatives[i][|derivatives[i]| - 1];
      i := i - 1;
    }
    if values == [] {
      return Err(EmptyRow);
    }
    if k == 0 {
      TableBottom(values);
      assert values[|values| - 1] == 0;
    } else {
      TableLink(values, 0);
    }
    r := Ok(values[|values| - 1] + advance);
  }

  /** The second part's extrapolation: C is folded from the deepest row up
      as C := row[0] - C, and the prediction is values[0] - C. */
  method ExtrapolateBackward(values: seq<int>) returns (r: Result<int, OasisError>)
    ensures r.Ok? <==> EndsInZeros(values)
    ensures r.Ok? ==> r.value == Prev(values)
  {
    var derivatives := BuildTable(values);
    var k := |derivatives| - 1;
    var c := 0;
    var i := k;
    while i > 0
      invariant 0 <= i <= k
      invariant i == k ==> c == 0
      invariant i < k ==> EndsInZeros(values) && c == Prev(derivatives[i + 1])
    {
      if i < k {
        TableLink(values, i);
      }
      if derivatives[i] == [] {
        return Err(EmptyRow);
      }
      if i == k {
        TableBottom(values);
        assert derivatives[i][0] == 0;
      } else {
        assert Prev(derivatives[i]) == derivatives[i][0] - Prev(derivatives[i + 1]);
      }
      c := derivatives[i][0] - c;
      i := i - 1;
    }
    if values == [] {
      return Err(EmptyRow);
    }
    if k == 0 {
      TableBottom(values);
      assert values[0] == 0;
    } else {
      TableLink(values, 0);
    }
    r := Ok(values[0] - c);
  }

  /** The answer of the first part: the sum of the forward predictions; any
      line whose table runs into an empty row fails the whole sum. */
  method PartOne(lines: seq<seq<int>>) returns (r: Result<int, OasisError>)
    ensures r.Ok? <==> forall l | l in lines :: EndsInZeros(l)
    ensures r.Ok? ==> r.value == SumOf(lines, Next)
  {
    var answer := 0;
    var n := 0;
    while n < |lines|
      invariant 0 <= n <= |lines|
      invariant forall l | l in lines[..n] :: EndsInZeros(l)
      invariant answer == SumOf(lines[..n], Next)
    {
      var e := ExtrapolateForward(lines[n]);
      if e.Err? {
        return Err(e.error);
      }
      SumOfSnoc(lines[..n], lines[n], Next);
      assert lines[..n + 1] == lines[..n] + [lines[n]];
      answer := answer + e.value;
      n := n + 1;
    }
    assert lines[..n] == lines;
    r := Ok(answer);
  }

  /** The answer of the second part: the sum of the backward predictions. */
  method PartTwo(lines: seq<seq<int>>) returns (r: Result<int, OasisError>)
    ensures r.Ok? <==> forall l | l in lines :: EndsInZeros(l)
    ensures r.Ok? ==> r.value == SumOf(lines, Prev)
  {
    var answer := 0;
    var n := 0;
    while n < |lines|
      invariant 0 <= n <= |lines|
      invariant forall l | l in lines[..n] :: EndsInZeros(l)
      invariant answer == SumOf(lines[..n], Prev)
    {
      var e := ExtrapolateBackward(lines[n]);
      if e.Err? {
        return Err(e.error);
      }
      SumOfSnoc(lines[..n], lines[n], Prev);
      assert lines[..n + 1] == lines[..n] + [lines[n]];
      answer := answer + e.value;
      n := n + 1;
    }
    assert lines[..n] == lines;
    r := Ok(answer);
  }

  function SumOf(lines: seq<seq<int>>, f: seq<int> -> int): int {
    if lines == [] then 0 else f(lines[0]) + SumOf(lines[1..], f)
  }

  lemma {:induction false} SumOfSnoc(lines: seq<seq<int>>, l: seq<int>, f: seq<int> -> int)
    ensures SumOf(lines + [l], f) == SumOf(lines, f) + f(l)
    decreases |lines|
  {
    if lines == [] {
      assert [] + [l] == [l];
    } else {
      assert (lines + [l])[1..] == lines[1..] + [l];
      SumOfSnoc(lines[1..], l, f);
    }
  }

  lemma {:induction false} DerivativeSnoc(v: seq<int>, x: int)
    requires v != []
    ensures Derivative(v + [x]) == Derivative(v) + [x - v[|v| - 1]]
    decreases |v|
  {
    if |v| > 1 {
      assert (v + [x])[1..] == v[1..] + [x];
      DerivativeSnoc(v[1..], x);
    }
  }

  lemma {:induction false} DerivativeCons(x: int, v: seq<int>)
    requires v != []
    ensures Derivative([x] + v) == [v[0] - x] + Derivative(v)
  {
  }

  /** Appending the prediction extends the difference row by the prediction
      for that row: the table stays consistent one column further right. */
  lemma NextExtendsTable(v: seq<int>)
    requires AnyNonZero(v)
    ensures Derivative(v + [Next(v)]) == Derivative(v) + [Next(Derivative(v))]
  {
    DerivativeSnoc(v, Next(v));
  }

  /** Prepending the backward prediction extends the difference row on the left. */
  lemma PrevExtendsTable(v: seq<int>)
    requires AnyNonZero(v)
    ensures Derivative([Prev(v)] + v) == [Prev(Derivative(v))] + Derivative(v)
  {
    DerivativeCons(Prev(v), v);
  }

  /** A non-empty row of zeros is its own table and predicts 0 either way. */
  lemma ZeroRow(v: seq<int>)
    requires v != [] && forall i | 0 <= i < |v| :: v[i] == 0
    ensures Table(v) == [v] && EndsInZeros(v) && Next(v) == 0 && Prev(v) == 0
  {
  }

  /** A lone non-zero reading differences into an empty row, which the
      extrapolation cannot index. */
  lemma LoneReadingFails(x: int)
    requires x != 0
    ensures !EndsInZeros([x])
  {
    assert AnyNonZero([x]) by { assert [x][0] != 0; }
    assert Table([x]) == [[x]] + Table([]);
  }

  /** A constant sequence of at least two readings predicts the same constant
      in both directions. */
  lemma ConstantRow(v: seq<int>, c: int)
    requires |v| >= 2 && forall i | 0 <= i < |v| :: v[i] == c
    ensures EndsInZeros(v) && Next(v) == c && Prev(v) == c
  {
    if c != 0 {
      assert AnyNonZero(v) by { assert v[0] != 0; }
      var d := Derivative(v);
      forall i | 0 <= i < |d|
        ensures d[i] == 0
      {
        DerivativeAt(v, i);
      }
      ZeroRow(d);
      assert Table(v) == [v] + Table(d) == [v, d];
      assert Next(v) == v[|v| - 1] + Next(d);
      assert Prev(v) == v[0] - Prev(d);
    } else {
      ZeroRow(v);
    }
  }

  /** Readings with a constant step d (at least three of them) predict
      last + d forwards and first - d backwards. */
  lemma ArithmeticRow(v: seq<int>, a: int, d: int)
    requires |v| >= 3 && forall i | 0 <= i < |v| :: v[i] == a + i * d
    ensures EndsInZeros(v) && Next(v) == v[|v| - 1] + d && Prev(v) == v[0] - d
  {
    var w := Derivative(v);
    forall i | 0 <= i < |w|
      ensures w[i] == d
    {
      DerivativeAt(v, i);
      assert v[i + 1] - v[i] == (a + (i + 1) * d) - (a + i * d);
    }
    if d == 0 {
      ConstantRow(v, a);
    } else {
      ConstantRow(w, d);
      assert AnyNonZero(v) by {
        assert v[1] - v[0] == d;
      }
      assert Table(v) == [v] + Table(w);
    }
  }

  function Negate(v: seq<int>): seq<int> {
    seq(|v|, i requires 0 <= i < |v| => -v[i])
  }

  function Reverse(v: seq<int>): seq<int> {
    seq(|v|, i requires 0 <= i < |v| => v[|v| - 1 - i])
  }

  lemma NegateShape(v: seq<int>)
    ensures AnyNonZero(Negate(v)) == AnyNonZero(v)
    ensures v != [] ==> Derivative(Negate(v)) == Negate(Derivative(v))
  {
    if AnyNonZero(v) {
      var i :| 0 <= i < |v| && v[i] != 0;
      assert Negate(v)[i] != 0;
    }
    if AnyNonZero(Negate(v)) {
      var i :| 0 <= i < |v| && Negate(v)[i] != 0;
      assert v[i] != 0;
    }
    if v != [] {
      var a, b := Derivative(Negate(v)), Negate(Derivative(v));
      assert |a| == |b|;
      forall i | 0 <= i < |a|
        ensures a[i] == b[i]
      {
        DerivativeAt(v, i);
        DerivativeAt(Negate(v), i);
      }
    }
  }

  lemma ReverseAny(v: seq<int>)
    ensures AnyNonZero(Reverse(v)) == AnyNonZero(v)
  {
    var rv := Reverse(v);
    if AnyNonZero(v) {
      var i :| 0 <= i < |v| && v[i] != 0;
      assert rv[|v| - 1 - i] != 0;
    }
    if AnyNonZero(rv) {
      var i :| 0 <= i < |v| && rv[i] != 0;
      assert v[|v| - 1 - i] != 0;
    }
  }

  lemma ReverseDerivativeAt(v: seq<int>, i: int)
    requires 0 <= i < |v| - 1
    ensures Derivative(Reverse(v))[i] == -Reverse(Derivative(v))[i]
  {
    var w, d := Reverse(v), Derivative(v);
    var j := |v| - 2 - i;
    DerivativeAt(w, i);
    DerivativeAt(v, j);
    assert w[i + 1] == v[j];
    assert w[i] == v[j + 1];
    assert Reverse(d)[i] == d[j];
  }

  lemma ReverseDerivative(v: seq<int>)
    requires v != []
    ensures Derivative(Reverse(v)) == Negate(Reverse(Derivative(v)))
  {
    forall i | 0 <= i < |v| - 1
      ensures Derivative(Reverse(v))[i] == Negate(Reverse(Derivative(v)))[i]
    {
      ReverseDerivativeAt(v, i);
    }
  }

  /** Negating the readings negates the forward prediction. */
  lemma {:induction false} NextNegate(v: seq<int>)
    ensures Next(Negate(v)) == -Next(v)
    decreases |v|
  {
    NegateShape(v);
    if AnyNonZero(v) {
      NextNegate(Derivative(v));
    }
  }

  /** Predicting backwards is predicting forwards on the reversed readings. */
  lemma {:induction false} PrevIsReversedNext(v: seq<int>)
    ensures Prev(v) == Next(Reverse(v))
    decreases |v|
  {
    ReverseAny(v);
    if AnyNonZero(v) {
      ReverseDerivative(v);
      var d := Derivative(v);
      PrevIsReversedNext(d);
      NextNegate(Reverse(d));
      assert Reverse(v)[|v| - 1] == v[0];
    }
  }
}

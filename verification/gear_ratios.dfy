/** Day 3: an engine schematic is a grid of characters. Every horizontal
    run of digits is a number; a number is a part number when one of its
    digits has a symbol (anything but '.' and a digit) among its eight
    neighbours. The first part sums the part numbers; the second groups
    the numbers next to a '*' by that star and sums the products of the
    stars that touch exactly two numbers. */
module GearRatios {
  import opened Results
  import opened Text

  /** The character at column x of line y; '.' anywhere outside the text. */
  function Cell(lines: seq<string>, x: int, y: int): char {
    if 0 <= y < |lines| && 0 <= x < |lines[y]| then lines[y][x] else '.'
  }

  predicate IsSymbol(c: char) {
    c != '.' && !IsDigit(c)
  }

  /** The eight neighbour offsets, in the order they are searched. */
  const Neighbours: seq<(int, int)> :=
    [(-1, -1), (0, -1), (1, -1), (-1, 0), (1, 0), (-1, 1), (0, 1), (1, 1)]

  /** A symbol and where it stands. */
  datatype Symbol = Symbol(ch: char, x: int, y: int)

  function Around(lines: seq<string>, x: int, y: int, i: nat): char
    requires i < 8
  {
    Cell(lines, x + Neighbours[i].0, y + Neighbours[i].1)
  }

  function SymbolAround(lines: seq<string>, x: int, y: int, i: nat): Symbol
    requires i < 8
  {
    Symbol(Around(lines, x, y, i), x + Neighbours[i].0, y + Neighbours[i].1)
  }

  /** The first neighbour, from offset i on, that holds a symbol. */
  function FirstSymbolFrom(lines: seq<string>, x: int, y: int, i: nat): (r: Option<Symbol>)
    requires i <= 8
    decreases 8 - i
  {
    if i == 8 then None
    else if IsSymbol(Around(lines, x, y, i)) then Some(SymbolAround(lines, x, y, i))
    else FirstSymbolFrom(lines, x, y, i + 1)
  }

  function FirstSymbol(lines: seq<string>, x: int, y: int): Option<Symbol> {
    FirstSymbolFrom(lines, x, y, 0)
  }

  /** The search finds a symbol exactly when one of the offsets holds one,
      and then it is the one at the earliest such offset. */
  lemma {:induction false} FirstSymbolFromSpec(lines: seq<string>, x: int, y: int, i: nat)
    requires i <= 8
    ensures FirstSymbolFrom(lines, x, y, i).None? <==>
            forall j | i <= j < 8 :: !IsSymbol(Around(lines, x, y, j))
    ensures FirstSymbolFrom(lines, x, y, i).Some? ==>
            exists j | i <= j < 8 ::
              FirstSymbolFrom(lines, x, y, i) == Some(SymbolAround(lines, x, y, j)) &&
              IsSymbol(Around(lines, x, y, j)) &&
              forall k | i <= k < j :: !IsSymbol(Around(lines, x, y, k))
    decreases 8 - i
  {
    if i < 8 {
      if IsSymbol(Around(lines, x, y, i)) {
        assert FirstSymbolFrom(lines, x, y, i) == Some(SymbolAround(lines, x, y, i));
      } else {
        var rest := FirstSymbolFrom(lines, x, y, i + 1);
        assert FirstSymbolFrom(lines, x, y, i) == rest;
        assert rest.None? <==> forall j | i + 1 <= j < 8 :: !IsSymbol(Around(lines, x, y, j)) by {
          FirstSymbolFromSpec(lines, x, y, i + 1);
        }
        if rest.Some? {
          var j :| i + 1 <= j < 8 && rest == Some(SymbolAround(lines, x, y, j)) &&
                   IsSymbol(Around(lines, x, y, j)) &&
                   forall k | i + 1 <= k < j :: !IsSymbol(Around(lines, x, y, k)) by {
            FirstSymbolFromSpec(lines, x, y, i + 1);
          }
          assert forall k | i <= k < j :: !IsSymbol(Around(lines, x, y, k));
        }
      }
    }
  }

  /** The eight cells that share a side or a corner with (x, y). */
  predicate Adjacent(x: int, y: int, a: int, b: int) {
    x - 1 <= a <= x + 1 && y - 1 <= b <= y + 1 && (a != x || b != y)
  }

  /** Whether the cell (x, y) has a symbol among its neighbours. */
  ghost predicate Touches(lines: seq<string>, x: int, y: int) {
    exists a, b | Adjacent(x, y, a, b) :: IsSymbol(Cell(lines, a, b))
  }

  lemma NeighboursAdjacent(x: int, y: int, a: int, b: int)
    requires Adjacent(x, y, a, b)
    ensures exists j | 0 <= j < 8 :: (a, b) == (x + Neighbours[j].0, y + Neighbours[j].1)
  {
    var j :=
      if b == y - 1 then a - x + 1
      else if b == y then (if a < x then 3 else 4)
      else a - x + 6;
    assert (a, b) == (x + Neighbours[j].0, y + Neighbours[j].1);
  }

  /** A symbol next to the cell is found by the search over the offsets. */
  lemma FirstSymbolFinds(lines: seq<string>, x: int, y: int, a: int, b: int)
    requires Adjacent(x, y, a, b) && IsSymbol(Cell(lines, a, b))
    ensures FirstSymbol(lines, x, y).Some?
  {
    FirstSymbolFromSpec(lines, x, y, 0);
    NeighboursAdjacent(x, y, a, b);
    var j :| 0 <= j < 8 && (a, b) == (x + Neighbours[j].0, y + Neighbours[j].1);
    assert IsSymbol(Around(lines, x, y, j));
  }

  /** What the search finds is a symbol next to the cell, at its place. */
  lemma FirstSymbolAdjacent(lines: seq<string>, x: int, y: int)
    requires FirstSymbol(lines, x, y).Some?
    ensures var s := FirstSymbol(lines, x, y).value;
            Adjacent(x, y, s.x, s.y) && s.ch == Cell(lines, s.x, s.y) && IsSymbol(s.ch)
  {
    FirstSymbolFromSpec(lines, x, y, 0);
    var j :| 0 <= j < 8 && FirstSymbol(lines, x, y) == Some(SymbolAround(lines, x, y, j)) &&
             IsSymbol(Around(lines, x, y, j));
    var s := SymbolAround(lines, x, y, j);
    assert Adjacent(x, y, s.x, s.y);
  }

  /** The search over the offset list finds a symbol exactly when the cell
      touches one, and what it finds is a symbol next to the cell. */
  lemma FirstSymbolTouches(lines: seq<string>, x: int, y: int)
    ensures FirstSymbol(lines, x, y).Some? <==> Touches(lines, x, y)
    ensures FirstSymbol(lines, x, y).Some? ==>
            var s := FirstSymbol(lines, x, y).value;
            Adjacent(x, y, s.x, s.y) && s.ch == Cell(lines, s.x, s.y) && IsSymbol(s.ch)
  {
    if Touches(lines, x, y) {
      var a, b :| Adjacent(x, y, a, b) && IsSymbol(Cell(lines, a, b));
      FirstSymbolFinds(lines, x, y, a, b);
    }
    if FirstSymbol(lines, x, y).Some? {
      FirstSymbolAdjacent(lines, x, y);
      var s := FirstSymbol(lines, x, y).value;
      assert Adjacent(x, y, s.x, s.y) && IsSymbol(Cell(lines, s.x, s.y));
    }
  }

  /** What the inner loop reads from column x on: its digits, the column
      where it stops, and the symbol it last recorded. */
  datatype Scan = Scan(digits: string, end: int, symbol: Option<Symbol>)

  function RowLength(lines: seq<string>, y: int): nat {
    if 0 <= y < |lines| then |lines[y]| else 0
  }

  /** The digit loop: it reads while the cell is a digit, and a digit with
      a symbol next to it replaces the recorded symbol by the first one in
      neighbour order, so the last such digit decides. */
  function ScanDigits(lines: seq<string>, y: int, x: int): (r: Scan)
    ensures AllDigits(r.digits) && r.end == x + |r.digits|
    decreases RowLength(lines, y) - x
  {
    if IsDigit(Cell(lines, x, y)) then
      var rest := ScanDigits(lines, y, x + 1);
      var symbol := if rest.symbol.Some? then rest.symbol else FirstSymbol(lines, x, y);
      Scan([Cell(lines, x, y)] + rest.digits, rest.end, symbol)
    else
      Scan([], x, None)
  }

  /** The digit loop stops at a non-digit. */
  lemma {:induction false} ScanDigitsStops(lines: seq<string>, y: int, x: int)
    ensures !IsDigit(Cell(lines, ScanDigits(lines, y, x).end, y))
    decreases RowLength(lines, y) - x
  {
    if IsDigit(Cell(lines, x, y)) {
      ScanDigitsStops(lines, y, x + 1);
    }
  }

  /** The symbol recorded for the digits from x to e: the first symbol of
      the last of them that touches one. */
  predicate LastTouch(lines: seq<string>, y: int, x: int, e: int, s: Symbol) {
    exists p | x <= p < e ::
      FirstSymbol(lines, p, y) == Some(s) &&
      forall q | p < q < e :: FirstSymbol(lines, q, y).None?
  }

  /** The digit loop reads the whole run of digits from x, stops at the
      first non-digit, and records a symbol exactly when some digit of the
      run touches one. */
  lemma {:induction false} ScanDigitsSpec(lines: seq<string>, y: int, x: int)
    ensures var r := ScanDigits(lines, y, x);
            (forall i | 0 <= i < |r.digits| :: r.digits[i] == Cell(lines, x + i, y)) &&
            !IsDigit(Cell(lines, r.end, y)) &&
            (r.symbol.Some? <==> exists p | x <= p < r.end :: FirstSymbol(lines, p, y).Some?) &&
            (r.symbol.Some? ==> LastTouch(lines, y, x, r.end, r.symbol.value))
    decreases RowLength(lines, y) - x
  {
    ScanDigitsCells(lines, y, x);
    ScanDigitsStops(lines, y, x);
    ScanDigitsFinds(lines, y, x);
    ScanDigitsLast(lines, y, x);
  }

  /** The digits read from x are the cells from x on. */
  lemma {:induction false} ScanDigitsCells(lines: seq<string>, y: int, x: int)
    ensures forall i | 0 <= i < |ScanDigits(lines, y, x).digits| :: ScanDigits(lines, y, x).digits[i] == Cell(lines, x + i, y)
    decreases RowLength(lines, y) - x
  {
    if IsDigit(Cell(lines, x, y)) {
      var rest := ScanDigits(lines, y, x + 1);
      var r := ScanDigits(lines, y, x);
      assert r.digits == [Cell(lines, x, y)] + rest.digits;
      ScanDigitsCells(lines, y, x + 1);
      assert forall i | 0 <= i < |rest.digits| :: rest.digits[i] == Cell(lines, x + 1 + i, y);
      forall i | 0 <= i < |r.digits| ensures r.digits[i] == Cell(lines, x + i, y) {
        if i > 0 {
          assert r.digits[i] == rest.digits[i - 1];
        }
      }
    }
  }

  /** A symbol is recorded exactly when some digit of the run touches one. */
  lemma {:induction false} ScanDigitsFinds(lines: seq<string>, y: int, x: int)
    ensures var r := ScanDigits(lines, y, x);
            r.symbol.Some? <==> exists p | x <= p < r.end :: FirstSymbol(lines, p, y).Some?
    decreases RowLength(lines, y) - x
  {
    if IsDigit(Cell(lines, x, y)) {
      var rest := ScanDigits(lines, y, x + 1);
      assert ScanDigits(lines, y, x).end == rest.end;
      ScanDigitsFinds(lines, y, x + 1);
      if rest.symbol.Some? {
        var p :| x + 1 <= p < rest.end && FirstSymbol(lines, p, y).Some?;
        assert x <= p < rest.end;
      }
    }
  }

  /** The recorded symbol is the first one around the last digit of the
      run that touches one. */
  lemma {:induction false} ScanDigitsLast(lines: seq<string>, y: int, x: int)
    ensures var r := ScanDigits(lines, y, x);
            r.symbol.Some? ==> LastTouch(lines, y, x, r.end, r.symbol.value)
    decreases RowLength(lines, y) - x
  {
    var r := ScanDigits(lines, y, x);
    if IsDigit(Cell(lines, x, y)) {
      var rest := ScanDigits(lines, y, x + 1);
      assert r.end == rest.end;
      if rest.symbol.Some? {
        assert LastTouch(lines, y, x + 1, rest.end, rest.symbol.value) by {
          ScanDigitsLast(lines, y, x + 1);
        }
        var p :| x + 1 <= p < rest.end && FirstSymbol(lines, p, y) == rest.symbol &&
                 forall q | p < q < rest.end :: FirstSymbol(lines, q, y).None?;
        assert LastTouch(lines, y, x, r.end, r.symbol.value);
      } else if FirstSymbol(lines, x, y).Some? {
        ScanDigitsFinds(lines, y, x + 1);
        assert LastTouch(lines, y, x, r.end, r.symbol.value);
      }
    }
  }

  /** A number read by the scan: its line, its columns, its value and the
      symbol recorded for it. */
  datatype Run = Run(row: int, start: int, end: int, value: nat, symbol: Option<Symbol>)

  /** The scan's loop body at column x: a cell that starts a number yields
      the number and its recorded symbol. */
  function Attempt(lines: seq<string>, y: int, x: int): seq<Run> {
    var s := ScanDigits(lines, y, x);
    if s.digits != [] then [Run(y, x, s.end, Decimal(s.digits), s.symbol)] else []
  }

  /** Where the scan goes on after an attempt at x: one column past the
      first non-digit. */
  function Next(lines: seq<string>, y: int, x: int): (r: int)
    ensures r > x
  {
    ScanDigits(lines, y, x).end + 1
  }

  /** One line, scanned from column x while x is below width. */
  function ScanRow(lines: seq<string>, y: int, x: int, width: int): (r: seq<Run>)
    decreases width - x
  {
    if x >= width then []
    else Attempt(lines, y, x) + ScanRow(lines, y, Next(lines, y, x), width)
  }

  /** Every line from y on, top to bottom. */
  function ScanFrom(lines: seq<string>, y: nat, width: int): (r: seq<Run>)
    decreases |lines| - y
  {
    if y >= |lines| then []
    else ScanRow(lines, y, 0, width) + ScanFrom(lines, y + 1, width)
  }

  /** Columns s up to e of line y hold a maximal run of digits. */
  predicate MaximalRun(lines: seq<string>, y: int, s: int, e: int) {
    0 <= y < |lines| && 0 <= s < e <= |lines[y]| &&
    (forall p | s <= p < e :: IsDigit(lines[y][p])) &&
    !IsDigit(Cell(lines, s - 1, y)) && !IsDigit(Cell(lines, e, y))
  }

  /** A run as the puzzle reads it: a maximal run of digits, its decimal
      value, and a recorded symbol exactly when one of its digits touches a
      symbol, namely the first symbol around the last such digit. */
  ghost predicate Faithful(lines: seq<string>, r: Run) {
    MaximalRun(lines, r.row, r.start, r.end) &&
    AllDigits(lines[r.row][r.start..r.end]) &&
    r.value == Decimal(lines[r.row][r.start..r.end]) &&
    (r.symbol.Some? <==> exists p | r.start <= p < r.end :: Touches(lines, p, r.row)) &&
    (r.symbol.Some? ==> LastTouch(lines, r.row, r.start, r.end, r.symbol.value))
  }

  lemma FaithfulRun(lines: seq<string>, y: int, x: int)
    requires 0 <= x && !IsDigit(Cell(lines, x - 1, y))
    requires ScanDigits(lines, y, x).digits != []
    ensures var s := ScanDigits(lines, y, x);
            Faithful(lines, Run(y, x, s.end, Decimal(s.digits), s.symbol))
  {
    var s := ScanDigits(lines, y, x);
    ScanDigitsSpec(lines, y, x);
    assert s.digits[0] == Cell(lines, x, y);
    assert 0 <= y < |lines|;
    assert s.end <= |lines[y]| by {
      assert s.digits[|s.digits| - 1] == Cell(lines, s.end - 1, y);
    }
    assert s.digits == lines[y][x..s.end];
    assert MaximalRun(lines, y, x, s.end) by {
      forall p | x <= p < s.end ensures IsDigit(lines[y][p]) {
        assert s.digits[p - x] == lines[y][p];
      }
    }
    assert AllDigits(lines[y][x..s.end]);
    assert s.symbol.Some? <==> exists p | x <= p < s.end :: Touches(lines, p, y) by {
      forall p | x <= p < s.end
        ensures FirstSymbol(lines, p, y).Some? <==> Touches(lines, p, y)
      {
        FirstSymbolTouches(lines, p, y);
      }
    }
  }

  /** An attempt after a non-digit reads a faithful run at x, if any. */
  lemma AttemptSound(lines: seq<string>, y: int, x: int)
    requires 0 <= x && !IsDigit(Cell(lines, x - 1, y))
    ensures forall r | r in Attempt(lines, y, x) ::
              r.row == y && r.start == x && r.end < Next(lines, y, x) && Faithful(lines, r)
  {
    if ScanDigits(lines, y, x).digits != [] {
      FaithfulRun(lines, y, x);
    }
  }

  /** Every run the line scan reports is a faithful reading of a maximal
      run that starts at or after x and below width. */
  lemma {:induction false} ScanRowSound(lines: seq<string>, y: int, x: int, width: int)
    requires 0 <= x && !IsDigit(Cell(lines, x - 1, y))
    ensures forall r | r in ScanRow(lines, y, x, width) ::
              r.row == y && x <= r.start < width && Faithful(lines, r)
    decreases width - x
  {
    if x < width {
      var here := Attempt(lines, y, x);
      var rest := ScanRow(lines, y, Next(lines, y, x), width);
      assert ScanRow(lines, y, x, width) == here + rest;
      AttemptSound(lines, y, x);
      ScanDigitsStops(lines, y, x);
      ScanRowSound(lines, y, Next(lines, y, x), width);
      forall r: Run | r in here + rest
        ensures r.row == y && x <= r.start < width && Faithful(lines, r)
      {
        if r !in here {
          assert r in rest;
        }
      }
    }
  }

  /** The digit loop from x stops no later than the first non-digit at or
      after x. */
  lemma {:induction false} ScanStopsBy(lines: seq<string>, y: int, x: int, q: int)
    requires x <= q && !IsDigit(Cell(lines, q, y))
    ensures ScanDigits(lines, y, x).end <= q
    decreases q - x
  {
    if IsDigit(Cell(lines, x, y)) {
      ScanStopsBy(lines, y, x + 1, q);
    }
  }

  /** The digit loop from x reads through digits up to e, a non-digit. */
  lemma {:induction false} ScanStopsAt(lines: seq<string>, y: int, x: int, e: int)
    requires x <= e && !IsDigit(Cell(lines, e, y))
    requires forall p | x <= p < e :: IsDigit(Cell(lines, p, y))
    ensures ScanDigits(lines, y, x).end == e
    decreases e - x
  {
    if x < e {
      ScanStopsAt(lines, y, x + 1, e);
    }
  }

  /** An attempt at the start of a maximal run reads exactly that run. */
  lemma AttemptAtRun(lines: seq<string>, y: int, s: int, e: int)
    requires MaximalRun(lines, y, s, e)
    ensures |Attempt(lines, y, s)| == 1
    ensures Attempt(lines, y, s)[0].start == s && Attempt(lines, y, s)[0].end == e
  {
    assert forall p | s <= p < e :: IsDigit(Cell(lines, p, y));
    ScanStopsAt(lines, y, s, e);
  }

  /** The line scan reports every maximal run that starts at or after x
      and below width. */
  lemma {:induction false} ScanRowComplete(lines: seq<string>, y: int, x: int, width: int, s: int, e: int)
    requires 0 <= x && !IsDigit(Cell(lines, x - 1, y))
    requires MaximalRun(lines, y, s, e) && x <= s < width
    ensures exists r | r in ScanRow(lines, y, x, width) :: r.start == s && r.end == e
    decreases width - x
  {
    assert ScanRow(lines, y, x, width) ==
           Attempt(lines, y, x) + ScanRow(lines, y, Next(lines, y, x), width);
    if x == s {
      AttemptAtRun(lines, y, s, e);
      assert Attempt(lines, y, x)[0] in ScanRow(lines, y, x, width);
    } else {
      ScanStopsBy(lines, y, x, s - 1);
      ScanDigitsStops(lines, y, x);
      ScanRowComplete(lines, y, Next(lines, y, x), width, s, e);
      var r :| r in ScanRow(lines, y, Next(lines, y, x), width) && r.start == s && r.end == e;
      assert r in ScanRow(lines, y, x, width);
    }
  }

  /** Runs in order, each ending before the next one starts. */
  predicate LeftToRight(rs: seq<Run>) {
    forall i, j | 0 <= i < j < |rs| :: rs[i].end < rs[j].start
  }

  lemma LeftToRightCons(head: seq<Run>, rest: seq<Run>)
    requires |head| <= 1 && LeftToRight(rest)
    requires forall r, q | r in head && q in rest :: r.end < q.start
    ensures LeftToRight(head + rest)
  {
    var rs := head + rest;
    forall i, j | 0 <= i < j < |rs|
      ensures rs[i].end < rs[j].start
    {
      assert rs[j] == rest[j - |head|] && rest[j - |head|] in rest;
      if i >= |head| {
        assert rs[i] == rest[i - |head|];
      } else {
        assert rs[i] in head;
      }
    }
  }

  /** The runs reported from column x start at or after x. */
  lemma {:induction false} ScanRowStarts(lines: seq<string>, y: int, x: int, width: int)
    ensures forall r | r in ScanRow(lines, y, x, width) :: x <= r.start < r.end
    decreases width - x
  {
    if x < width {
      assert ScanRow(lines, y, x, width) ==
             Attempt(lines, y, x) + ScanRow(lines, y, Next(lines, y, x), width);
      ScanRowStarts(lines, y, Next(lines, y, x), width);
    }
  }

  /** Runs come out left to right without overlapping, so no number is
      read twice. */
  lemma {:induction false} ScanRowOrdered(lines: seq<string>, y: int, x: int, width: int)
    ensures LeftToRight(ScanRow(lines, y, x, width))
    decreases width - x
  {
    if x < width {
      var rest := ScanRow(lines, y, Next(lines, y, x), width);
      assert ScanRow(lines, y, x, width) == Attempt(lines, y, x) + rest;
      ScanRowOrdered(lines, y, Next(lines, y, x), width);
      ScanRowStarts(lines, y, Next(lines, y, x), width);
      LeftToRightCons(Attempt(lines, y, x), rest);
    }
  }

  /** The whole schematic from line y on: every run is a faithful reading
      of a maximal run that starts below width. */
  lemma {:induction false} ScanFromSound(lines: seq<string>, y: nat, width: int)
    ensures forall r | r in ScanFrom(lines, y, width) ::
              y <= r.row < |lines| && 0 <= r.start < width && Faithful(lines, r)
    decreases |lines| - y
  {
    if y < |lines| {
      ScanRowSound(lines, y, 0, width);
      ScanFromSound(lines, y + 1, width);
    }
  }

  /** Every maximal run on line y or below that starts below width is
      reported. */
  lemma {:induction false} ScanFromComplete(lines: seq<string>, y: nat, width: int, row: int, s: int, e: int)
    requires MaximalRun(lines, row, s, e) && y <= row && s < width
    ensures exists r | r in ScanFrom(lines, y, width) :: r.row == row && r.start == s && r.end == e
    decreases |lines| - y
  {
    if y == row {
      ScanRowComplete(lines, y, 0, width, s, e);
      ScanRowSound(lines, y, 0, width);
      var r :| r in ScanRow(lines, y, 0, width) && r.start == s && r.end == e;
      assert r in ScanFrom(lines, y, width);
    } else {
      ScanFromComplete(lines, y + 1, width, row, s, e);
      var r :| r in ScanFrom(lines, y + 1, width) && r.row == row && r.start == s && r.end == e;
      assert r in ScanFrom(lines, y, width);
    }
  }

  /** Runs in reading order: by line, then left to right without overlap. */
  predicate ReadingOrder(rs: seq<Run>) {
    forall i, j | 0 <= i < j < |rs| ::
      rs[i].row < rs[j].row || (rs[i].row == rs[j].row && rs[i].end < rs[j].start)
  }

  lemma ReadingOrderAppend(a: seq<Run>, b: seq<Run>, y: int)
    requires LeftToRight(a) && ReadingOrder(b)
    requires forall r | r in a :: r.row == y
    requires forall r | r in b :: y < r.row
    ensures ReadingOrder(a + b)
  {
    var rs := a + b;
    forall i, j | 0 <= i < j < |rs|
      ensures rs[i].row < rs[j].row || (rs[i].row == rs[j].row && rs[i].end < rs[j].start)
    {
      if j < |a| {
        assert rs[i] == a[i] && rs[j] == a[j];
      } else if i < |a| {
        assert rs[i] == a[i] && a[i] in a && rs[j] == b[j - |a|] && b[j - |a|] in b;
      } else {
        assert rs[i] == b[i - |a|] && rs[j] == b[j - |a|];
      }
    }
  }

  /** Each number is read once: the runs come out in reading order. */
  lemma {:induction false} ScanFromOrdered(lines: seq<string>, y: nat, width: int)
    ensures ReadingOrder(ScanFrom(lines, y, width))
    decreases |lines| - y
  {
    if y < |lines| {
      ScanRowOrdered(lines, y, 0, width);
      ScanRowSound(lines, y, 0, width);
      ScanFromOrdered(lines, y + 1, width);
      ScanFromSound(lines, y + 1, width);
      ReadingOrderAppend(ScanRow(lines, y, 0, width), ScanFrom(lines, y + 1, width), y);
    }
  }

  /** The width as the load loop leaves it: each character sets it to the
      larger of the current height and its column plus one. */
  function LineWidth(height: int, x: nat, len: nat, width: int): int
    decreases len - x
  {
    if x >= len then width
    else LineWidth(height, x + 1, len, if height > x + 1 then height else x + 1)
  }

  function LoadWidth(lines: seq<string>, y: nat, width: int): int
    decreases |lines| - y
  {
    if y >= |lines| then width
    else LoadWidth(lines, y + 1, LineWidth(y + 1, 0, |lines[y]|, width))
  }

  function WidthAsWritten(lines: seq<string>): int {
    LoadWidth(lines, 0, 0)
  }

  /** The width the scan evidently needs: the longest line. */
  function MaxWidth(lines: seq<string>): (r: nat)
    ensures forall y | 0 <= y < |lines| :: |lines[y]| <= r
    ensures |lines| > 0 ==> exists y | 0 <= y < |lines| :: |lines[y]| == r
  {
    if lines == [] then 0
    else
      var rest := MaxWidth(lines[1..]);
      assert forall y | 1 <= y < |lines| :: lines[y] == lines[1..][y - 1];
      if |lines[0]| >= rest then |lines[0]| else rest
  }

  lemma {:induction false} LineWidthLast(height: int, x: nat, len: nat, width: int)
    requires x < len
    ensures LineWidth(height, x, len, width) == if height > len then height else len
    decreases len - x
  {
    if x + 1 < len {
      LineWidthLast(height, x + 1, len, if height > x + 1 then height else x + 1);
    }
  }

  /** As written, the width depends only on the last line and the number
      of lines: the larger of the two when the last line is not empty. */
  lemma {:induction false} LoadWidthLast(lines: seq<string>, y: nat, width: int)
    requires y < |lines| && |lines[|lines| - 1]| > 0
    ensures LoadWidth(lines, y, width) ==
            if |lines| > |lines[|lines| - 1]| then |lines| else |lines[|lines| - 1]|
    decreases |lines| - y
  {
    if y + 1 < |lines| {
      LoadWidthLast(lines, y + 1, LineWidth(y + 1, 0, |lines[y]|, width));
    } else {
      LineWidthLast(y + 1, 0, |lines[y]|, width);
    }
  }

  /** On a grid of equal lines at least as long as the grid is tall, like
      the puzzle's square input, the width as written is the line length. */
  lemma WidthAsWrittenRectangular(lines: seq<string>, n: nat)
    requires 0 < |lines| <= n
    requires forall y | 0 <= y < |lines| :: |lines[y]| == n
    ensures WidthAsWritten(lines) == n == MaxWidth(lines)
  {
    LoadWidthLast(lines, 0, 0);
  }

  /** With the longest line as the width, the scan reports every maximal
      run of the schematic. */
  lemma ScanMaxWidthComplete(lines: seq<string>, row: int, s: int, e: int)
    requires MaximalRun(lines, row, s, e)
    ensures exists r | r in ScanFrom(lines, 0, MaxWidth(lines)) ::
              r.row == row && r.start == s && r.end == e
  {
    ScanFromComplete(lines, 0, MaxWidth(lines), row, s, e);
  }

  /** The first part's running total: the value of every run that
      recorded a symbol. */
  function PartSum(rs: seq<Run>): int {
    if rs == [] then 0
    else (if rs[0].symbol.Some? then rs[0].value else 0) + PartSum(rs[1..])
  }

  /** The puzzle's sum: the decimal value of every run one of whose digits
      touches a symbol. */
  ghost function TouchSum(lines: seq<string>, rs: seq<Run>): int
    requires forall r | r in rs :: Faithful(lines, r)
  {
    if rs == [] then 0
    else
      var r := rs[0];
      assert r in rs && Faithful(lines, r);
      (if exists p | r.start <= p < r.end :: Touches(lines, p, r.row)
       then Decimal(lines[r.row][r.start..r.end]) else 0) + TouchSum(lines, rs[1..])
  }

  /** A run is counted exactly when one of its digits touches a symbol. */
  lemma {:induction false} PartSumTouches(lines: seq<string>, rs: seq<Run>)
    requires forall r | r in rs :: Faithful(lines, r)
    ensures PartSum(rs) == TouchSum(lines, rs)
  {
    if rs != [] {
      assert rs[0] in rs;
      PartSumTouches(lines, rs[1..]);
    }
  }

  /** The scan of the whole schematic with the longest line as width. */
  function ScanGrid(lines: seq<string>): seq<Run> {
    ScanFrom(lines, 0, MaxWidth(lines))
  }

  /** The first part with the width the scan evidently needs. */
  function PartOne(lines: seq<string>): int {
    PartSum(ScanGrid(lines))
  }

  /** The first part with the width as the load loop computes it. */
  function PartOneAsWritten(lines: seq<string>): int {
    PartSum(ScanFrom(lines, 0, WidthAsWritten(lines)))
  }

  /** The first part sums, once each and in reading order, the maximal runs
      of the schematic that touch a symbol. */
  lemma PartOneSpec(lines: seq<string>)
    ensures forall r | r in ScanGrid(lines) :: Faithful(lines, r)
    ensures ReadingOrder(ScanGrid(lines))
    ensures forall y, s, e | MaximalRun(lines, y, s, e) ::
              exists r | r in ScanGrid(lines) :: r.row == y && r.start == s && r.end == e
    ensures PartOne(lines) == TouchSum(lines, ScanGrid(lines))
  {
    ScanFromSound(lines, 0, MaxWidth(lines));
    ScanFromOrdered(lines, 0, MaxWidth(lines));
    forall y, s, e | MaximalRun(lines, y, s, e)
      ensures exists r | r in ScanGrid(lines) :: r.row == y && r.start == s && r.end == e
    {
      ScanMaxWidthComplete(lines, y, s, e);
    }
    PartSumTouches(lines, ScanGrid(lines));
  }

  /** A schematic wider than it is tall, whose first line holds a part
      number beyond the width as written. */
  const Wide: seq<string> := ["..1*", ".."]

  lemma WideWidths()
    ensures WidthAsWritten(Wide) == 2 && MaxWidth(Wide) == 4
  {
    LoadWidthLast(Wide, 0, 0);
  }

  lemma WidePartNumber()
    ensures MaximalRun(Wide, 0, 2, 3) && Touches(Wide, 2, 0)
  {
    assert Adjacent(2, 0, 3, 0) && IsSymbol(Cell(Wide, 3, 0));
  }

  /** An attempt at a non-digit reads nothing and moves one column on. */
  lemma BlankAttempt(lines: seq<string>, y: int, x: int)
    requires !IsDigit(Cell(lines, x, y))
    ensures Attempt(lines, y, x) == [] && Next(lines, y, x) == x + 1
  {
  }

  /** No line of Wide has a digit in its first two columns. */
  lemma WideRowsAsWritten(y: int)
    requires 0 <= y < 2
    ensures ScanRow(Wide, y, 0, 2) == []
  {
    BlankAttempt(Wide, y, 0);
    BlankAttempt(Wide, y, 1);
    assert ScanRow(Wide, y, 1, 2) == [];
  }

  lemma WideAsWritten()
    ensures PartOneAsWritten(Wide) == 0
  {
    WideWidths();
    WideRowsAsWritten(0);
    WideRowsAsWritten(1);
    assert ScanFrom(Wide, 0, 2) == [];
  }

  /** The first line of Wide read over four columns: the number 1 with
      the '*' after it recorded. */
  lemma WideFirstRow() returns (one: Run)
    ensures ScanRow(Wide, 0, 0, 4) == [one] && one.value == 1 && one.symbol.Some?
  {
    WidePartNumber();
    FirstSymbolTouches(Wide, 2, 0);
    var scan := ScanDigits(Wide, 0, 2);
    assert scan.digits == "1" && scan.end == 3 && scan.symbol.Some? by {
      assert ScanDigits(Wide, 0, 3) == Scan([], 3, None);
    }
    assert Decimal("1") == 1 by {
      assert "1"[..0] == [];
    }
    one := Run(0, 2, 3, 1, scan.symbol);
    assert Attempt(Wide, 0, 2) == [one] && Next(Wide, 0, 2) == 4;
    BlankAttempt(Wide, 0, 0);
    BlankAttempt(Wide, 0, 1);
    assert ScanRow(Wide, 0, 2, 4) == [one];
    assert ScanRow(Wide, 0, 1, 4) == [one];
  }

  lemma WideSecondRow()
    ensures ScanRow(Wide, 1, 0, 4) == []
  {
    BlankAttempt(Wide, 1, 0);
    BlankAttempt(Wide, 1, 1);
    BlankAttempt(Wide, 1, 2);
    BlankAttempt(Wide, 1, 3);
    assert ScanRow(Wide, 1, 3, 4) == [];
    assert ScanRow(Wide, 1, 2, 4) == [];
    assert ScanRow(Wide, 1, 1, 4) == [];
  }

  lemma WideCorrected()
    ensures PartOne(Wide) == 1
  {
    WideWidths();
    var one := WideFirstRow();
    WideSecondRow();
    assert ScanGrid(Wide) == [one];
  }

  /** The as-written scan never reaches the part number 1 of Wide, so its
      sum is 0; the scan over the longest line finds it. */
  lemma WidthMissesNumber()
    ensures WidthAsWritten(Wide) < MaxWidth(Wide)
    ensures MaximalRun(Wide, 0, 2, 3) && Touches(Wide, 2, 0)
    ensures PartOneAsWritten(Wide) == 0 && PartOne(Wide) == 1
  {
    WideWidths();
    WidePartNumber();
    WideAsWritten();
    WideCorrected();
  }

  /** A run's recorded symbol stands next to one of its digits, and it is
      the character at its position. */
  lemma RecordedSymbolAdjacent(lines: seq<string>, r: Run)
    requires Faithful(lines, r) && r.symbol.Some?
    ensures var s := r.symbol.value;
            s.ch == Cell(lines, s.x, s.y) && IsSymbol(s.ch) &&
            exists p | r.start <= p < r.end :: Adjacent(p, r.row, s.x, s.y)
  {
    var p :| r.start <= p < r.end && FirstSymbol(lines, p, r.row) == r.symbol &&
             forall q | p < q < r.end :: FirstSymbol(lines, q, r.row).None?;
    FirstSymbolTouches(lines, p, r.row);
  }

  type Coord = (int, int)

  /** The second part's loop body: a run whose recorded symbol is a '*'
      is attached to that star's position. */
  function Attachments(rs: seq<Run>): (r: seq<(Coord, nat)>)
    ensures |r| <= |rs|
  {
    if rs == [] then []
    else
      var here :=
        if rs[0].symbol.Some? && rs[0].symbol.value.ch == '*'
        then [((rs[0].symbol.value.x, rs[0].symbol.value.y), rs[0].value)] else [];
      here + Attachments(rs[1..])
  }

  /** A number is attached to a position exactly when its run recorded a
      '*' there. */
  lemma {:induction false} AttachmentsSpec(rs: seq<Run>, c: Coord, v: nat)
    ensures (c, v) in Attachments(rs) <==>
            exists r | r in rs :: r.symbol == Some(Symbol('*', c.0, c.1)) && r.value == v
  {
    if rs != [] {
      AttachmentsSpec(rs[1..], c, v);
      assert forall r | r in rs[1..] :: r in rs;
      if exists r | r in rs :: r.symbol == Some(Symbol('*', c.0, c.1)) && r.value == v {
        var r :| r in rs && r.symbol == Some(Symbol('*', c.0, c.1)) && r.value == v;
        if r != rs[0] {
          assert r in rs[1..];
        }
      }
    }
  }

  /** The gear table, filled in scan order: each attachment appends its
      number to its position's list. */
  function Gears(atts: seq<(Coord, nat)>): map<Coord, seq<nat>> {
    if atts == [] then map[]
    else
      var g := Gears(atts[..|atts| - 1]);
      var (c, v) := atts[|atts| - 1];
      g[c := (if c in g then g[c] else []) + [v]]
  }

  /** The numbers attached to c, in scan order. */
  function PartsAt(atts: seq<(Coord, nat)>, c: Coord): (r: seq<nat>)
    ensures |r| <= |atts|
  {
    if atts == [] then []
    else PartsAt(atts[..|atts| - 1], c) + (if atts[|atts| - 1].0 == c then [atts[|atts| - 1].1] else [])
  }

  /** The table holds a list for exactly the positions something was
      attached to, and that list is everything attached there, in order. */
  lemma {:induction false} GearsSpec(atts: seq<(Coord, nat)>, c: Coord)
    ensures c in Gears(atts) <==> exists i | 0 <= i < |atts| :: atts[i].0 == c
    ensures c in Gears(atts) ==> Gears(atts)[c] == PartsAt(atts, c) != []
    ensures c !in Gears(atts) ==> PartsAt(atts, c) == []
  {
    if atts != [] {
      var init := atts[..|atts| - 1];
      GearsSpec(init, c);
      assert forall i | 0 <= i < |init| :: init[i] == atts[i];
    }
  }

  /** The table's keys in insertion order, as its items are iterated. */
  function KeyOrder(atts: seq<(Coord, nat)>): (r: seq<Coord>)
    ensures forall c | c in r :: exists i | 0 <= i < |atts| :: atts[i].0 == c
  {
    if atts == [] then []
    else
      var init := KeyOrder(atts[..|atts| - 1]);
      var c := atts[|atts| - 1].0;
      assert forall i | 0 <= i < |atts| - 1 :: atts[..|atts| - 1][i] == atts[i];
      init + (if c in init then [] else [c])
  }

  predicate Distinct<T(==)>(s: seq<T>) {
    forall i, j | 0 <= i < j < |s| :: s[i] != s[j]
  }

  /** Every key appears exactly once. */
  lemma {:induction false} KeyOrderSpec(atts: seq<(Coord, nat)>)
    ensures Distinct(KeyOrder(atts))
    ensures forall i | 0 <= i < |atts| :: atts[i].0 in KeyOrder(atts)
  {
    if atts != [] {
      var init := atts[..|atts| - 1];
      KeyOrderSpec(init);
      assert forall i | 0 <= i < |init| :: init[i] == atts[i];
    }
  }

  /** math.prod of a list of numbers. */
  function Product(xs: seq<nat>): nat {
    if xs == [] then 1 else xs[0] * Product(xs[1..])
  }

  /** The final loop over the table's items: the product of every list of
      exactly two numbers. */
  function GearSum(gears: map<Coord, seq<nat>>, order: seq<Coord>): int {
    if order == [] then 0
    else
      var c := order[0];
      (if c in gears && |gears[c]| == 2 then Product(gears[c]) else 0) + GearSum(gears, order[1..])
  }

  /** The second part's answer over the runs of a scan. */
  function GearTotal(rs: seq<Run>): int {
    var atts := Attachments(rs);
    GearSum(Gears(atts), KeyOrder(atts))
  }

  /** The second part with the width the scan evidently needs. */
  function PartTwo(lines: seq<string>): int {
    GearTotal(ScanGrid(lines))
  }

  /** The second part with the width as its load loop computes it, the
      same expression as in the first part. */
  function PartTwoAsWritten(lines: seq<string>): int {
    GearTotal(ScanFrom(lines, 0, WidthAsWritten(lines)))
  }

  /** The puzzle's gear ratio sum over a list of distinct stars: the
      product of the two numbers of every star with exactly two. */
  function RatioSum(atts: seq<(Coord, nat)>, stars: seq<Coord>): int {
    if stars == [] then 0
    else
      var parts := PartsAt(atts, stars[0]);
      (if |parts| == 2 then parts[0] * parts[1] else 0) + RatioSum(atts, stars[1..])
  }

  lemma {:induction false} GearSumRatios(atts: seq<(Coord, nat)>, order: seq<Coord>)
    ensures GearSum(Gears(atts), order) == RatioSum(atts, order)
  {
    if order != [] {
      var c := order[0];
      GearsSpec(atts, c);
      GearSumRatios(atts, order[1..]);
      if c in Gears(atts) && |Gears(atts)[c]| == 2 {
        var parts := Gears(atts)[c];
        assert Product(parts) == parts[0] * parts[1] by {
          assert parts[1..][1..] == [];
          assert Product(parts[1..]) == parts[1] * Product(parts[1..][1..]);
        }
      }
    }
  }

  /** The second part adds, once per star position, the product of the
      numbers attached to it when there are exactly two; every attached
      number belongs to a run that recorded a '*' standing next to one of
      its digits. */
  lemma PartTwoSpec(lines: seq<string>)
    ensures var atts := Attachments(ScanGrid(lines));
            PartTwo(lines) == RatioSum(atts, KeyOrder(atts)) &&
            Distinct(KeyOrder(atts)) &&
            forall i | 0 <= i < |atts| :: atts[i].0 in KeyOrder(atts)
    ensures forall c, v | (c, v) in Attachments(ScanGrid(lines)) ::
              Cell(lines, c.0, c.1) == '*' &&
              exists r | r in ScanGrid(lines) ::
                r.value == v && Faithful(lines, r) &&
                exists p | r.start <= p < r.end :: Adjacent(p, r.row, c.0, c.1)
    ensures forall y, s, e | MaximalRun(lines, y, s, e) ::
              exists r | r in ScanGrid(lines) :: r.row == y && r.start == s && r.end == e
  {
    var rs := ScanGrid(lines);
    var atts := Attachments(rs);
    GearSumRatios(atts, KeyOrder(atts));
    forall y, s, e | MaximalRun(lines, y, s, e)
      ensures exists r | r in rs :: r.row == y && r.start == s && r.end == e
    {
      ScanMaxWidthComplete(lines, y, s, e);
    }
    KeyOrderSpec(atts);
    ScanFromSound(lines, 0, MaxWidth(lines));
    forall c, v | (c, v) in atts
      ensures Cell(lines, c.0, c.1) == '*' &&
              exists r | r in rs ::
                r.value == v && Faithful(lines, r) &&
                exists p | r.start <= p < r.end :: Adjacent(p, r.row, c.0, c.1)
    {
      AttachmentsSpec(rs, c, v);
      var r :| r in rs && r.symbol == Some(Symbol('*', c.0, c.1)) && r.value == v;
      RecordedSymbolAdjacent(lines, r);
    }
  }

  /** A schematic wider than it is tall, whose first line holds a gear
      with one of its two numbers beyond the width as written. */
  const Starred: seq<string> := ["..3*4", "..."]

  const StarSymbol := Symbol('*', 3, 0)

  lemma StarredWidths()
    ensures WidthAsWritten(Starred) == 3 && MaxWidth(Starred) == 5
  {
    LoadWidthLast(Starred, 0, 0);
  }

  /** The 3 in column 2 and the 4 in column 4 both record the '*'. */
  lemma StarredDigits()
    ensures ScanDigits(Starred, 0, 2) == Scan("3", 3, Some(StarSymbol))
    ensures ScanDigits(Starred, 0, 4) == Scan("4", 5, Some(StarSymbol))
  {
    assert ScanDigits(Starred, 0, 3) == Scan([], 3, None);
    assert ScanDigits(Starred, 0, 5) == Scan([], 5, None);
    assert FirstSymbolFrom(Starred, 2, 0, 4) == Some(StarSymbol);
    assert FirstSymbol(Starred, 2, 0) == Some(StarSymbol);
    assert FirstSymbolFrom(Starred, 4, 0, 3) == Some(StarSymbol);
    assert FirstSymbol(Starred, 4, 0) == Some(StarSymbol);
  }

  /** The second line of Starred holds no digit, over either width. */
  lemma StarredSecondRow(width: int)
    requires 3 <= width <= 5
    ensures ScanRow(Starred, 1, 0, width) == []
  {
    BlankAttempt(Starred, 1, 0);
    BlankAttempt(Starred, 1, 1);
    BlankAttempt(Starred, 1, 2);
    BlankAttempt(Starred, 1, 3);
    BlankAttempt(Starred, 1, 4);
    assert ScanRow(Starred, 1, 4, width) == [];
    assert ScanRow(Starred, 1, 3, width) == [];
    assert ScanRow(Starred, 1, 2, width) == [];
    assert ScanRow(Starred, 1, 1, width) == [];
  }

  /** The attempts at the two numbers of Starred, and where the scan goes
      on after each. */
  lemma StarredAttempts()
    ensures Attempt(Starred, 0, 2) == [Run(0, 2, 3, 3, Some(StarSymbol))] && Next(Starred, 0, 2) == 4
    ensures Attempt(Starred, 0, 4) == [Run(0, 4, 5, 4, Some(StarSymbol))] && Next(Starred, 0, 4) == 6
  {
    StarredDigits();
    assert Decimal("3") == 3 by {
      assert "3"[..0] == [];
    }
    assert Decimal("4") == 4 by {
      assert "4"[..0] == [];
    }
  }

  /** As written, the first line is read over three columns: only the 3. */
  lemma StarredAsWrittenRows()
    ensures ScanFrom(Starred, 0, 3) == [Run(0, 2, 3, 3, Some(StarSymbol))]
  {
    StarredAttempts();
    BlankAttempt(Starred, 0, 0);
    BlankAttempt(Starred, 0, 1);
    assert ScanRow(Starred, 0, 2, 3) == [Run(0, 2, 3, 3, Some(StarSymbol))];
    assert ScanRow(Starred, 0, 1, 3) == [Run(0, 2, 3, 3, Some(StarSymbol))];
    StarredSecondRow(3);
    assert ScanFrom(Starred, 1, 3) == [];
  }

  /** Over the longest line, the first line yields the 3 and the 4. */
  lemma StarredFirstRow()
    ensures ScanRow(Starred, 0, 0, 5) ==
            [Run(0, 2, 3, 3, Some(StarSymbol)), Run(0, 4, 5, 4, Some(StarSymbol))]
  {
    StarredAttempts();
    BlankAttempt(Starred, 0, 0);
    BlankAttempt(Starred, 0, 1);
    assert ScanRow(Starred, 0, 4, 5) == [Run(0, 4, 5, 4, Some(StarSymbol))];
    assert ScanRow(Starred, 0, 2, 5) ==
           [Run(0, 2, 3, 3, Some(StarSymbol)), Run(0, 4, 5, 4, Some(StarSymbol))];
    assert ScanRow(Starred, 0, 1, 5) == ScanRow(Starred, 0, 2, 5);
  }

  lemma StarredCorrectedRows()
    ensures ScanGrid(Starred) ==
            [Run(0, 2, 3, 3, Some(StarSymbol)), Run(0, 4, 5, 4, Some(StarSymbol))]
  {
    StarredWidths();
    StarredFirstRow();
    StarredSecondRow(5);
    assert ScanFrom(Starred, 1, 5) == [];
  }

  /** One number at the '*' is no gear. */
  lemma LoneNumberTotal()
    ensures GearTotal([Run(0, 2, 3, 3, Some(StarSymbol))]) == 0
  {
    var one: seq<(Coord, nat)> := [((3, 0), 3)];
    assert Attachments([Run(0, 2, 3, 3, Some(StarSymbol))]) == one;
    GearSumRatios(one, KeyOrder(one));
    assert one[..0] == [];
    assert KeyOrder(one) == [(3, 0)];
    assert PartsAt(one, (3, 0)) == [3];
  }

  /** Two numbers at the '*' make a gear of ratio 12. */
  lemma PairTotal()
    ensures GearTotal([Run(0, 2, 3, 3, Some(StarSymbol)), Run(0, 4, 5, 4, Some(StarSymbol))]) == 12
  {
    var one: seq<(Coord, nat)> := [((3, 0), 3)];
    var two: seq<(Coord, nat)> := [((3, 0), 3), ((3, 0), 4)];
    assert Attachments([Run(0, 4, 5, 4, Some(StarSymbol))]) == [((3, 0), 4)];
    assert Attachments([Run(0, 2, 3, 3, Some(StarSymbol)), Run(0, 4, 5, 4, Some(StarSymbol))]) == two;
    GearSumRatios(two, KeyOrder(two));
    assert two[..1] == one;
    assert one[..0] == [];
    assert KeyOrder(one) == [(3, 0)];
    assert KeyOrder(two) == [(3, 0)];
    assert PartsAt(one, (3, 0)) == [3];
    assert PartsAt(two, (3, 0)) == [3, 4];
  }

  lemma StarredAsWritten()
    ensures PartTwoAsWritten(Starred) == 0
  {
    StarredWidths();
    StarredAsWrittenRows();
    LoneNumberTotal();
  }

  lemma StarredCorrected()
    ensures PartTwo(Starred) == 12
  {
    StarredCorrectedRows();
    PairTotal();
  }

  lemma StarredFour()
    ensures MaximalRun(Starred, 0, 4, 5)
  {
  }

  /** The as-written scan sees only one of the two numbers next to the '*'
      of Starred, so the gear counts for nothing; over the longest line the
      gear's ratio 3 * 4 is added. */
  lemma WidthMissesGear()
    ensures WidthAsWritten(Starred) < MaxWidth(Starred)
    ensures MaximalRun(Starred, 0, 4, 5)
    ensures PartTwoAsWritten(Starred) == 0 && PartTwo(Starred) == 12
  {
    StarredWidths();
    StarredFour();
    StarredAsWritten();
    StarredCorrected();
  }
}

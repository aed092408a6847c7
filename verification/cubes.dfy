/** Day 2: games of cubes drawn from a bag. Each line reads
    `Game N: 3 blue, 4 red; 1 red, 2 green`; the largest count seen of
    each colour decides whether the game was possible with 12 red, 13
    green and 14 blue cubes, and its power is the product of the three. */
module Cubes {
  import opened Results
  import opened Text

  datatype Color = Red | Green | Blue

  /** One choice of a subset: a count of cubes of one colour. */
  datatype Draw = Draw(count: int, color: Color)

  /** A parsed line: the game number and every choice of every subset, in
      the order the line lists them. */
  datatype Game = Game(number: int, draws: seq<Draw>)

  /** Why a line cannot be read: splitting at ':' or at ' ' does not give
      exactly two parts, a number does not parse, or a colour is not one of
      the three dictionary keys. */
  datatype GameError = NotOneColon | BadNumber | BadChoice | UnknownColor | BadCount

  function ColorName(c: Color): string {
    match c
    case Red => "red"
    case Green => "green"
    case Blue => "blue"
  }

  /** The dictionary lookup by colour name. */
  function ParseColor(s: string): (r: Option<Color>)
    ensures r.Some? ==> ColorName(r.value) == s
    ensures r.None? <==> forall c: Color :: ColorName(c) != s
  {
    if s == "red" then Some(Red)
    else if s == "green" then Some(Green)
    else if s == "blue" then Some(Blue)
    else None
  }

  /** One choice: strip it, split it at ' ' into a count and a colour. The
      colour is looked up before the count is converted. */
  function ParseChoice(choice: string): Result<Draw, GameError> {
    var words := Split(Strip(choice), ' ');
    if |words| != 2 then Err(BadChoice)
    else match ParseColor(words[1])
      case None => Err(UnknownColor)
      case Some(c) =>
        match ParseInt(words[0])
        case None => Err(BadCount)
        case Some(n) => Ok(Draw(n, c))
  }

  /** One subset: strip it, split it at ',' and read every choice; the
      first bad one is the error. */
  function ParseRound(subset: string): Result<seq<Draw>, GameError> {
    Traverse(Split(Strip(subset), ','), ParseChoice)
  }

  /** Every subset, their choices concatenated in order. */
  function ParseRounds(subsets: seq<string>): Result<seq<Draw>, GameError> {
    match Traverse(subsets, ParseRound)
    case Err(e) => Err(e)
    case Ok(rounds) => Ok(Flatten(rounds))
  }

  function Flatten(rounds: seq<seq<Draw>>): seq<Draw>
    decreases |rounds|
  {
    if rounds == [] then [] else rounds[0] + Flatten(rounds[1..])
  }

  /** A line: split at ':' into header and subsets, read the number after
      the header's first five characters, then strip the subsets and split
      them at ';'. */
  function ParseGame(line: string): Result<Game, GameError> {
    var halves := Split(line, ':');
    if |halves| != 2 then Err(NotOneColon)
    else match ParseInt(Suffix(halves[0], 5))
      case None => Err(BadNumber)
      case Some(n) =>
        match ParseRounds(Split(Strip(halves[1]), ';'))
        case Err(e) => Err(e)
        case Ok(draws) => Ok(Game(n, draws))
  }

  /** The per-colour counts dictionary, starting at zero for each key. */
  datatype Counts = Counts(red: int, green: int, blue: int)

  function Get(k: Counts, c: Color): int {
    match c
    case Red => k.red
    case Green => k.green
    case Blue => k.blue
  }

  /** counts[color] = max(counts[color], n). */
  function Raise(k: Counts, c: Color, n: int): (r: Counts)
    ensures Get(r, c) >= Get(k, c) && Get(r, c) >= n && (Get(r, c) == Get(k, c) || Get(r, c) == n)
    ensures forall d: Color | d != c :: Get(r, d) == Get(k, d)
  {
    var m := if n > Get(k, c) then n else Get(k, c);
    match c
    case Red => k.(red := m)
    case Green => k.(green := m)
    case Blue => k.(blue := m)
  }

  /** The counts after every draw has raised its colour, in order. */
  function Tally(draws: seq<Draw>): Counts
    decreases |draws|
  {
    if draws == [] then Counts(0, 0, 0)
    else
      var last := draws[|draws| - 1];
      Raise(Tally(draws[..|draws| - 1]), last.color, last.count)
  }

  /** The counts drawn of colour c. */
  function CountsOf(draws: seq<Draw>, c: Color): set<int> {
    set d | d in draws && d.color == c :: d.count
  }

  /** v is the dictionary's final value for c: no draw of c exceeds it, and
      it is one of them, or the starting zero. */
  predicate IsMaxOf(v: int, draws: seq<Draw>, c: Color) {
    && v >= 0
    && (forall d | d in draws && d.color == c :: d.count <= v)
    && (v == 0 || v in CountsOf(draws, c))
  }

  /** Each colour's count is the largest count drawn of it, or zero. */
  lemma {:induction false} TallyIsMax(draws: seq<Draw>, c: Color)
    ensures IsMaxOf(Get(Tally(draws), c), draws, c)
    decreases |draws|
  {
    if draws != [] {
      var init := draws[..|draws| - 1];
      var last := draws[|draws| - 1];
      TallyIsMax(init, c);
      assert draws == init + [last];
      var v := Get(Tally(draws), c);
      forall d | d in draws && d.color == c ensures d.count <= v {
        if d != last {
          assert d in init;
        }
      }
      if v != 0 && v != Get(Tally(init), c) {
        assert last.color == c && v == last.count;
        assert v in CountsOf(draws, c);
      } else if v != 0 {
        var w :| w in init && w.color == c && w.count == v;
        assert w in draws;
      }
    }
  }

  /** At most one value is the maximum. */
  lemma MaxUnique(u: int, v: int, draws: seq<Draw>, c: Color)
    requires IsMaxOf(u, draws, c) && IsMaxOf(v, draws, c)
    ensures u == v
  {
    if u != 0 {
      var d :| d in draws && d.color == c && d.count == u;
    }
    if v != 0 {
      var d :| d in draws && d.color == c && d.count == v;
    }
  }

  /** The order of subsets and choices does not matter: only the maximum of
      each colour is kept. */
  lemma TallyOrderFree(a: seq<Draw>, b: seq<Draw>)
    requires multiset(a) == multiset(b)
    ensures Tally(a) == Tally(b)
  {
    forall c: Color ensures Get(Tally(a), c) == Get(Tally(b), c) {
      TallyIsMax(a, c);
      TallyIsMax(b, c);
      assert forall d :: d in a <==> d in multiset(a);
      assert forall d :: d in b <==> d in multiset(b);
      assert CountsOf(a, c) == CountsOf(b, c);
      MaxUnique(Get(Tally(a), c), Get(Tally(b), c), b, c);
    }
    assert Get(Tally(a), Red) == Get(Tally(b), Red);
    assert Get(Tally(a), Green) == Get(Tally(b), Green);
    assert Get(Tally(a), Blue) == Get(Tally(b), Blue);
  }

  /** The number of cubes of each colour in the bag. */
  function Limit(c: Color): int {
    match c
    case Red => 12
    case Green => 13
    case Blue => 14
  }

  /** The game was possible with the bag's contents. */
  predicate Possible(k: Counts) {
    k.red <= 12 && k.green <= 13 && k.blue <= 14
  }

  /** A game is possible exactly when no single draw asks for more cubes
      of a colour than the bag holds. */
  lemma PossibleIff(draws: seq<Draw>)
    ensures Possible(Tally(draws)) <==> forall d | d in draws :: d.count <= Limit(d.color)
  {
    TallyIsMax(draws, Red);
    TallyIsMax(draws, Green);
    TallyIsMax(draws, Blue);
    if forall d | d in draws :: d.count <= Limit(d.color) {
      forall c: Color ensures Get(Tally(draws), c) <= Limit(c) {
        if Get(Tally(draws), c) != 0 {
          var d :| d in draws && d.color == c && d.count == Get(Tally(draws), c);
        }
      }
      assert Get(Tally(draws), Red) <= 12 && Get(Tally(draws), Green) <= 13 && Get(Tally(draws), Blue) <= 14;
    }
  }

  /** The power of a game: the product of the three counts. */
  function Power(k: Counts): int {
    k.red * k.green * k.blue
  }

  /** A colour never drawn leaves the power at zero. */
  lemma PowerAbsent(draws: seq<Draw>, c: Color)
    requires forall d | d in draws :: d.color != c
    ensures Power(Tally(draws)) == 0
  {
    TallyIsMax(draws, c);
    assert Get(Tally(draws), c) == 0;
  }

  /** More draws never lower a colour's count. */
  lemma TallyGrows(a: seq<Draw>, b: seq<Draw>, c: Color)
    ensures 0 <= Get(Tally(a), c) <= Get(Tally(a + b), c)
  {
    TallyIsMax(a, c);
    TallyIsMax(a + b, c);
    if Get(Tally(a), c) != 0 {
      var d :| d in a && d.color == c && d.count == Get(Tally(a), c);
      assert d in a + b;
    }
  }

  lemma MulMonotone(x: int, y: int, z: int, x': int, y': int, z': int)
    requires 0 <= x <= x' && 0 <= y <= y' && 0 <= z <= z'
    ensures x * y * z <= x' * y' * z'
  {
    assert x * y <= x' * y by {
      assert (x' - x) * y >= 0;
    }
    assert x' * y <= x' * y' by {
      assert x' * (y' - y) >= 0;
    }
    assert x * y * z <= x' * y' * z by {
      assert (x' * y' - x * y) * z >= 0;
    }
    assert x' * y' * z <= x' * y' * z' by {
      assert (x' * y') * (z' - z) >= 0;
    }
  }

  /** Further draws never lower the power. */
  lemma PowerMonotone(a: seq<Draw>, b: seq<Draw>)
    ensures 0 <= Power(Tally(a)) <= Power(Tally(a + b))
  {
    TallyGrows(a, b, Red);
    TallyGrows(a, b, Green);
    TallyGrows(a, b, Blue);
    var k, k' := Tally(a), Tally(a + b);
    MulMonotone(k.red, k.green, k.blue, k'.red, k'.green, k'.blue);
    MulMonotone(0, 0, 0, k.red, k.green, k.blue);
  }

  /** What a game adds to the first part's answer. */
  function Worth(g: Game): int {
    if Possible(Tally(g.draws)) then g.number else 0
  }

  /** What a game adds to the second part's answer. */
  function GamePower(g: Game): int {
    Power(Tally(g.draws))
  }

  /** The sum of value over the games. */
  function SumOf(games: seq<Game>, value: Game -> int): int
    decreases |games|
  {
    if games == [] then 0 else SumOf(games[..|games| - 1], value) + value(games[|games| - 1])
  }

  /** The answer over the lines: every line is read in order, the first
      that cannot be is the error, and the values of the games add up. */
  function Answer(lines: seq<string>, value: Game -> int): Result<int, GameError> {
    match Traverse(lines, ParseGame)
    case Err(e) => Err(e)
    case Ok(games) => Ok(SumOf(games, value))
  }

  /** The first part's answer: the sum of the numbers of possible games. */
  function PartOne(lines: seq<string>): Result<int, GameError> {
    Answer(lines, Worth)
  }

  /** The second part's answer: the sum of the games' powers. */
  function PartTwo(lines: seq<string>): Result<int, GameError> {
    Answer(lines, GamePower)
  }

  /** Every line reads as the game at the same position. */
  predicate ReadsAs(lines: seq<string>, games: seq<Game>) {
    |lines| == |games| && forall i | 0 <= i < |lines| :: ParseGame(lines[i]) == Ok(games[i])
  }

  /** Lines that all read as games give the sum of the games' values. */
  lemma AnswerOk(lines: seq<string>, games: seq<Game>, value: Game -> int)
    requires ReadsAs(lines, games)
    ensures Answer(lines, value) == Ok(SumOf(games, value))
  {
    TraverseOk(lines, ParseGame, games);
  }

  /** A further game adds its value to the sum. */
  lemma SumOfAppend(games: seq<Game>, g: Game, value: Game -> int)
    ensures SumOf(games + [g], value) == SumOf(games, value) + value(g)
  {
    assert (games + [g])[..|games|] == games;
  }

  /** The first line that cannot be read decides the error. */
  lemma AnswerError(lines: seq<string>, i: nat, value: Game -> int)
    requires i < |lines| && ParseGame(lines[i]).Err? && forall j | 0 <= j < i :: ParseGame(lines[j]).Ok?
    ensures Answer(lines, value) == Err(ParseGame(lines[i]).error)
  {
    TraverseFirstError(lines, ParseGame, i);
  }

  // A game written out in the puzzle's layout, and read back.

  /** A choice without its leading blank: `3 blue`. */
  function ChoiceText(d: Draw): string {
    ShowInt(d.count) + [' '] + ColorName(d.color)
  }

  /** The choices of one subset, each after a blank. */
  function ChoicePieces(r: seq<Draw>): seq<string>
    decreases |r|
  {
    if r == [] then [] else [[' '] + ChoiceText(r[0])] + ChoicePieces(r[1..])
  }

  /** ps holds the choices of r, each after a blank. */
  predicate PiecesOf(r: seq<Draw>, ps: seq<string>) {
    |ps| == |r| && forall i | 0 <= i < |r| :: ps[i] == [' '] + ChoiceText(r[i])
  }

  lemma {:induction false} ChoicePiecesOf(r: seq<Draw>)
    ensures PiecesOf(r, ChoicePieces(r))
    decreases |r|
  {
    if r != [] {
      ChoicePiecesOf(r[1..]);
    }
  }

  /** One subset: ` 3 blue, 4 red`. */
  function RoundText(r: seq<Draw>): string
    requires r != []
  {
    Join(ChoicePieces(r), ',')
  }

  /** The subsets of a line, each in its own layout. */
  function RoundPieces(rounds: seq<seq<Draw>>): seq<string>
    requires forall i | 0 <= i < |rounds| :: rounds[i] != []
    decreases |rounds|
  {
    if rounds == [] then [] else [RoundText(rounds[0])] + RoundPieces(rounds[1..])
  }

  /** ps holds the texts of the subsets. */
  predicate RoundsOf(rounds: seq<seq<Draw>>, ps: seq<string>) {
    |ps| == |rounds| && forall i | 0 <= i < |rounds| :: rounds[i] != [] && ps[i] == RoundText(rounds[i])
  }

  lemma {:induction false} RoundPiecesOf(rounds: seq<seq<Draw>>)
    requires forall i | 0 <= i < |rounds| :: rounds[i] != []
    ensures RoundsOf(rounds, RoundPieces(rounds))
    decreases |rounds|
  {
    if rounds != [] {
      RoundPiecesOf(rounds[1..]);
    }
  }

  /** The whole line: `Game 1: 3 blue, 4 red; 1 red, 2 green`. */
  function GameText(n: int, rounds: seq<seq<Draw>>): string
    requires rounds != [] && forall i | 0 <= i < |rounds| :: rounds[i] != []
  {
    "Game " + ShowInt(n) + ":" + Join(RoundPieces(rounds), ';')
  }

  /** A colour name holds none of the line's punctuation and no blank. */
  lemma ColorNameChars(c: Color, x: char)
    requires x == ' ' || x == ',' || x == ';' || x == ':'
    ensures x !in ColorName(c) && |ColorName(c)| >= 1 && !IsSpace(ColorName(c)[|ColorName(c)| - 1])
  {
    var s := ColorName(c);
    assert forall k | 0 <= k < |s| :: 'a' <= s[k] <= 'z';
  }

  /** A spelled number holds no punctuation and no blank. */
  lemma ShowIntAvoids(n: int, x: char)
    requires x == ' ' || x == ',' || x == ';' || x == ':'
    ensures x !in ShowInt(n)
  {
    ShowIntChars(n);
  }

  /** A choice after its blank is a spaced piece with no punctuation. */
  lemma ChoicePiece(d: Draw, x: char)
    requires x == ',' || x == ';' || x == ':'
    ensures Spaced([' '] + ChoiceText(d)) && x !in [' '] + ChoiceText(d)
  {
    var s := ShowInt(d.count);
    var name := ColorName(d.color);
    ShowIntChars(d.count);
    ShowIntAvoids(d.count, x);
    ColorNameChars(d.color, x);
    var p := [' '] + ChoiceText(d);
    assert p == [' '] + s + [' '] + name;
    assert p[1] == s[0];
    assert p[|p| - 1] == name[|name| - 1];
  }

  /** A choice's text reads back as the draw. */
  lemma ParseChoiceText(s: string, d: Draw)
    requires Strip(s) == ChoiceText(d)
    ensures ParseChoice(s) == Ok(d)
  {
    var num := ShowInt(d.count);
    var name := ColorName(d.color);
    assert Split(Strip(s), ' ') == [num, name] by {
      ShowIntAvoids(d.count, ' ');
      ColorNameChars(d.color, ' ');
      JoinPair(num, name, ' ');
      SplitJoin([num, name], ' ');
    }
    ParseColorName(d.color);
    ParseShowInt(d.count);
    ParseChoiceWords(s, num, name, d);
  }

  /** The dictionary lookup finds every colour by its name. */
  lemma ParseColorName(c: Color)
    ensures ParseColor(ColorName(c)) == Some(c)
  {
  }

  /** A choice that splits into a count and a colour name reads as that
      draw. */
  lemma ParseChoiceWords(s: string, num: string, name: string, d: Draw)
    requires Split(Strip(s), ' ') == [num, name]
    requires ParseColor(name) == Some(d.color) && ParseInt(num) == Some(d.count)
    ensures ParseChoice(s) == Ok(d)
  {
  }

  /** The choices after their blanks are spaced pieces without x. */
  lemma ChoicesSpaced(r: seq<Draw>, ps: seq<string>, x: char)
    requires PiecesOf(r, ps) && (x == ',' || x == ';' || x == ':')
    ensures forall i | 0 <= i < |ps| :: Spaced(ps[i]) && x !in ps[i]
  {
    forall i | 0 <= i < |ps| ensures Spaced(ps[i]) && x !in ps[i] {
      ChoicePiece(r[i], x);
    }
  }

  /** A subset's text is spaced and holds no ';' or ':'. */
  lemma RoundPiece(r: seq<Draw>, x: char)
    requires r != [] && (x == ';' || x == ':')
    ensures Spaced(RoundText(r)) && x !in RoundText(r)
  {
    var ps := ChoicePieces(r);
    ChoicePiecesOf(r);
    ChoicesSpaced(r, ps, x);
    JoinSpaced(ps, ',');
    JoinAvoids(ps, ',', x);
  }

  /** A text that strips like the joined choices reads back as the draws. */
  lemma ParseRoundPieces(s: string, r: seq<Draw>, ps: seq<string>)
    requires r != [] && PiecesOf(r, ps) && Strip(s) == Strip(Join(ps, ','))
    ensures ParseRound(s) == Ok(r)
  {
    var qs := [ps[0][1..]] + ps[1..];
    ChoicesSpaced(r, ps, ',');
    SplitSpacedJoin(ps, ',');
    assert Split(Strip(s), ',') == qs;
    ChoicePiecesParse(r, ps);
    TraverseOk(qs, ParseChoice, r);
  }

  /** Each piece, the first without its leading blank, reads as its draw. */
  lemma ChoicePiecesParse(r: seq<Draw>, ps: seq<string>)
    requires r != [] && PiecesOf(r, ps)
    ensures forall i | 0 <= i < |ps| :: ParseChoice(([ps[0][1..]] + ps[1..])[i]) == Ok(r[i])
  {
    var qs := [ps[0][1..]] + ps[1..];
    forall i | 0 <= i < |qs| ensures ParseChoice(qs[i]) == Ok(r[i]) {
      PieceParses(ps[i], r[i]);
    }
  }

  /** A piece " count colour" reads as its draw, with or without the
      leading blank. */
  lemma PieceParses(p: string, d: Draw)
    requires p == [' '] + ChoiceText(d)
    ensures ParseChoice(p) == Ok(d) && ParseChoice(p[1..]) == Ok(d)
  {
    ChoicePiece(d, ',');
    StripSpaced(p);
    ParseChoiceText(p, d);
    ParseChoiceText(p[1..], d);
  }

  /** A text that strips like a subset's text reads back as its draws. */
  lemma ParseRoundText(s: string, r: seq<Draw>)
    requires r != [] && Strip(s) == Strip(RoundText(r))
    ensures ParseRound(s) == Ok(r)
  {
    ChoicePiecesOf(r);
    ParseRoundPieces(s, r, ChoicePieces(r));
  }

  /** The subsets, spaced and without ';' or ':'. */
  lemma RoundsSpaced(rounds: seq<seq<Draw>>, ps: seq<string>, x: char)
    requires RoundsOf(rounds, ps) && (x == ';' || x == ':')
    ensures forall i | 0 <= i < |ps| :: Spaced(ps[i]) && x !in ps[i]
  {
    forall i | 0 <= i < |ps| ensures Spaced(ps[i]) && x !in ps[i] {
      RoundPiece(rounds[i], x);
    }
  }

  /** The subsets part of a line, stripped and split at ';', reads back as
      the rounds' draws, concatenated. */
  lemma ParseRoundsPieces(rounds: seq<seq<Draw>>, ps: seq<string>)
    requires rounds != [] && RoundsOf(rounds, ps)
    ensures ParseRounds(Split(Strip(Join(ps, ';')), ';')) == Ok(Flatten(rounds))
  {
    var qs := [ps[0][1..]] + ps[1..];
    RoundsSpaced(rounds, ps, ';');
    SplitSpacedJoin(ps, ';');
    ParseRoundsEach(rounds, ps, qs);
    TraverseOk(qs, ParseRound, rounds);
  }

  /** Each subset, the first without its blank, reads as its draws. */
  lemma ParseRoundsEach(rounds: seq<seq<Draw>>, ps: seq<string>, qs: seq<string>)
    requires rounds != [] && RoundsOf(rounds, ps) && qs == [ps[0][1..]] + ps[1..]
    ensures |qs| == |rounds| && forall i | 0 <= i < |qs| :: ParseRound(qs[i]) == Ok(rounds[i])
  {
    RoundsSpaced(rounds, ps, ';');
    forall i | 0 <= i < |qs| ensures ParseRound(qs[i]) == Ok(rounds[i]) {
      StripSpaced(ps[i]);
      ParseRoundText(qs[i], rounds[i]);
    }
  }

  /** A line whose parts read as a number and draws reads as that game. */
  lemma ParseGameParts(line: string, header: string, body: string, n: int, draws: seq<Draw>)
    requires Split(line, ':') == [header, body]
    requires ParseInt(Suffix(header, 5)) == Some(n)
    requires ParseRounds(Split(Strip(body), ';')) == Ok(draws)
    ensures ParseGame(line) == Ok(Game(n, draws))
  {
  }

  /** The header and the subsets are the two halves of a line split at ':'. */
  lemma SplitHeader(n: int, ps: seq<string>)
    requires |ps| >= 1 && forall i | 0 <= i < |ps| :: ':' !in ps[i]
    ensures Split("Game " + ShowInt(n) + ":" + Join(ps, ';'), ':') == ["Game " + ShowInt(n), Join(ps, ';')]
  {
    var header := "Game " + ShowInt(n);
    var body := Join(ps, ';');
    ShowIntAvoids(n, ':');
    assert ':' !in header;
    JoinAvoids(ps, ';', ':');
    JoinPair(header, body, ':');
    SplitJoin([header, body], ':');
  }

  /** A game written in the puzzle's layout reads back as its number and
      its draws in order. */
  lemma ParseGameText(n: int, rounds: seq<seq<Draw>>)
    requires rounds != [] && forall i | 0 <= i < |rounds| :: rounds[i] != []
    ensures ParseGame(GameText(n, rounds)) == Ok(Game(n, Flatten(rounds)))
  {
    var ps := RoundPieces(rounds);
    var header := "Game " + ShowInt(n);
    RoundPiecesOf(rounds);
    RoundsSpaced(rounds, ps, ':');
    SplitHeader(n, ps);
    assert Suffix(header, 5) == ShowInt(n);
    ParseShowInt(n);
    ParseRoundsPieces(rounds, ps);
    ParseGameParts(GameText(n, rounds), header, Join(ps, ';'), n, Flatten(rounds));
  }
}

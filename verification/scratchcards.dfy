/** Day 4: scratchcards. Each line reads `Card 1: 41 48 83 | 83 86 6 17`;
    the numbers we have that are also winning numbers are the card's
    matches. The first part scores each card by doubling per match; in the
    second part a card with m matches wins one copy of each of the next m
    cards, and the answer is how many cards there are in the end. */
module Scratchcards {
  import opened Results
  import opened Text

  /** A card: its winning numbers and the numbers we have, as sets. */
  datatype Card = Card(winning: set<int>, ours: set<int>)

  /** Why a line cannot be read (splitting at ':' or at '|' does not give
      two parts, a token is not a number), or why the copies cannot be
      handed out (a card wins copies of cards past the last one). */
  datatype CardError = NotOneColon | NotOneBar | BadNumber | PastLastCard

  /** The tokens the comprehension's `if x` keeps: the non-empty ones. */
  function NonEmpty(pieces: seq<string>): seq<string>
    decreases |pieces|
  {
    if pieces == [] then []
    else (if pieces[0] == [] then [] else [pieces[0]]) + NonEmpty(pieces[1..])
  }

  /** The kept tokens are exactly the non-empty pieces. */
  lemma {:induction false} NonEmptyMembers(pieces: seq<string>)
    ensures forall p :: p in NonEmpty(pieces) <==> p in pieces && p != []
    decreases |pieces|
  {
    if pieces != [] {
      NonEmptyMembers(pieces[1..]);
      assert pieces == [pieces[0]] + pieces[1..];
    }
  }

  /** With no empty piece, nothing is dropped. */
  lemma {:induction false} NonEmptyKeeps(pieces: seq<string>)
    requires forall i | 0 <= i < |pieces| :: pieces[i] != []
    ensures NonEmpty(pieces) == pieces
    decreases |pieces|
  {
    if pieces != [] {
      NonEmptyKeeps(pieces[1..]);
    }
  }

  function ParseNumber(x: string): Result<int, CardError> {
    match ParseInt(x)
    case None => Err(BadNumber)
    case Some(n) => Ok(n)
  }

  /** The set of values in a list. */
  function Elements(vs: seq<int>): set<int> {
    set v | v in vs
  }

  /** A number list: strip it, split it at ' ', skip the empty tokens that
      runs of blanks leave, read each remaining token, and keep the set. */
  function ParseNumbers(text: string): Result<set<int>, CardError> {
    match Traverse(NonEmpty(Split(Strip(text), ' ')), ParseNumber)
    case Err(e) => Err(e)
    case Ok(vs) => Ok(Elements(vs))
  }

  /** A line: split at ':', strip the data and split it at '|' into the
      winning list and our list, read the winning list first. The part
      before ':' is not read. */
  function ParseCard(line: string): Result<Card, CardError> {
    var halves := Split(line, ':');
    if |halves| != 2 then Err(NotOneColon)
    else
      var lists := Split(Strip(halves[1]), '|');
      if |lists| != 2 then Err(NotOneBar)
      else match ParseNumbers(lists[0])
        case Err(e) => Err(e)
        case Ok(winning) =>
          match ParseNumbers(lists[1])
          case Err(e) => Err(e)
          case Ok(ours) => Ok(Card(winning, ours))
  }

  /** A number written twice in a list is still one element. */
  lemma ElementsRepeat(vs: seq<int>, k: nat)
    requires k < |vs|
    ensures Elements(vs + [vs[k]]) == Elements(vs)
    ensures |Elements(vs + [vs[k]])| == |Elements(vs)|
  {
  }

  /** How many of our numbers win. Each is counted once, however often a
      list repeats it. */
  function Matches(c: Card): (m: nat)
    ensures m <= |c.ours| && m <= |c.winning|
  {
    SubsetCard(c.ours * c.winning, c.ours);
    SubsetCard(c.ours * c.winning, c.winning);
    |c.ours * c.winning|
  }

  /** A subset is no larger than its superset. */
  lemma SubsetCard<T>(a: set<T>, b: set<T>)
    requires a <= b
    ensures |a| <= |b|
  {
    if a != b {
      var x :| x in b && x !in a;
      SubsetCard(a, b - {x});
    }
  }

  /** A proper subset is smaller than its superset. */
  lemma StrictSubsetCard<T>(a: set<T>, b: set<T>)
    requires a <= b && a != b
    ensures |a| < |b|
  {
    var x :| x in b && x !in a;
    SubsetCard(a, b - {x});
  }

  /** A card has no match exactly when none of our numbers wins, every
      one of our numbers matches exactly when all of them win, and the
      count does not depend on which list is intersected with which. */
  lemma MatchesMeaning(c: Card)
    ensures Matches(c) == 0 <==> forall x | x in c.ours :: x !in c.winning
    ensures Matches(c) == |c.ours| <==> c.ours <= c.winning
    ensures Matches(c) == |c.winning * c.ours|
  {
    assert c.winning * c.ours == c.ours * c.winning;
    NoMatchMeaning(c.ours, c.winning);
    AllMatchMeaning(c.ours, c.winning);
  }

  /** An empty intersection means no shared number. */
  lemma NoMatchMeaning(ours: set<int>, winning: set<int>)
    ensures |ours * winning| == 0 <==> forall x | x in ours :: x !in winning
  {
    if forall x | x in ours :: x !in winning {
      assert ours * winning == {};
    } else {
      var y :| y in ours && y in winning;
      assert y in ours * winning;
    }
  }

  /** The intersection is as large as `ours` only when `ours` is inside it. */
  lemma AllMatchMeaning(ours: set<int>, winning: set<int>)
    ensures |ours * winning| == |ours| <==> ours <= winning
  {
    if ours * winning == ours {
      assert ours <= winning;
    } else {
      StrictSubsetCard(ours * winning, ours);
    }
  }

  function Pow2(k: nat): (r: nat)
    decreases k
  {
    if k == 0 then 1 else 2 * Pow2(k - 1)
  }

  /** The first part's points for m matches: 2^(m-1), or 0 without a
      match. */
  function Points(m: nat): nat {
    if m == 0 then 0 else Pow2(m - 1)
  }

  /** One match is worth one point, and every further match doubles the
      points. */
  lemma PointsDouble(m: nat)
    ensures Points(1) == 1
    ensures m >= 1 ==> Points(m + 1) == 2 * Points(m)
  {
  }

  /** The points of m matches are at least m. */
  lemma {:induction false} PointsAtLeast(m: nat)
    ensures Points(m) >= m
    decreases m
  {
    if m > 1 {
      PointsAtLeast(m - 1);
    }
  }

  /** The first part's sum of points over the cards. */
  function SumPoints(cards: seq<Card>): int
    decreases |cards|
  {
    if cards == [] then 0 else SumPoints(cards[..|cards| - 1]) + Points(Matches(cards[|cards| - 1]))
  }

  /** The first part: read every card, the first line that cannot be read
      is the error, and add up the points. */
  function PartOne(lines: seq<string>): Result<int, CardError> {
    match Traverse(lines, ParseCard)
    case Err(e) => Err(e)
    case Ok(cards) => Ok(SumPoints(cards))
  }

  /** Cards that all read give the sum of their points. */
  lemma PartOneOk(lines: seq<string>, cards: seq<Card>)
    requires |lines| == |cards| && forall i | 0 <= i < |lines| :: ParseCard(lines[i]) == Ok(cards[i])
    ensures PartOne(lines) == Ok(SumPoints(cards))
  {
    TraverseOk(lines, ParseCard, cards);
  }

  /** The first line that cannot be read decides the error. */
  lemma PartOneError(lines: seq<string>, i: nat)
    requires i < |lines| && ParseCard(lines[i]).Err? && forall j | 0 <= j < i :: ParseCard(lines[j]).Ok?
    ensures PartOne(lines) == Err(ParseCard(lines[i]).error)
  {
    TraverseFirstError(lines, ParseCard, i);
  }

  /** The sum of points is at least the number of cards with a match and
      grows with every card. */
  lemma {:induction false} SumPointsBounds(cards: seq<Card>)
    ensures 0 <= SumPoints(cards)
    ensures SumPoints(cards) >= |set i | 0 <= i < |cards| && Matches(cards[i]) > 0|
    decreases |cards|
  {
    if cards != [] {
      var init := cards[..|cards| - 1];
      SumPointsBounds(init);
      var before := set i | 0 <= i < |init| && Matches(init[i]) > 0;
      var after := set i | 0 <= i < |cards| && Matches(cards[i]) > 0;
      var n := |cards| - 1;
      PointsAtLeast(Matches(cards[n]));
      if Matches(cards[n]) > 0 {
        assert after == before + {n};
      } else {
        assert after == before;
      }
    }
  }

  // Second part: copies won by the cards below.

  /** The number of copies of card j in the end, by the puzzle's rule:
      the original, plus one for each copy of every earlier card i whose
      matches reach j. */
  function Won(scores: seq<nat>, j: nat): nat
    requires j < |scores|
    decreases j, 1
  {
    1 + Gains(scores, j, j)
  }

  /** The copies of card j won by the cards before k. */
  function Gains(scores: seq<nat>, j: nat, k: nat): nat
    requires k <= j < |scores|
    decreases k, 0
  {
    if k == 0 then 0
    else Gains(scores, j, k - 1) + (if j <= k - 1 + scores[k - 1] then Won(scores, k - 1) else 0)
  }

  /** The copies of the first p cards, added up. */
  function WonTotal(scores: seq<nat>, p: nat): nat
    requires p <= |scores|
    decreases p
  {
    if p == 0 then 0 else WonTotal(scores, p - 1) + Won(scores, p - 1)
  }

  /** Every card's matches reach no further than the last card. */
  predicate Fits(scores: seq<nat>) {
    forall j | 0 <= j < |scores| :: j + scores[j] < |scores|
  }

  /** There are at least as many cards in the end as at the start. */
  lemma {:induction false} WonTotalAtLeast(scores: seq<nat>, p: nat)
    requires p <= |scores|
    ensures WonTotal(scores, p) >= p
    decreases p
  {
    if p > 0 {
      WonTotalAtLeast(scores, p - 1);
    }
  }

  /** A card in the queue: how many copies of it there are, and its number
      of matches. */
  datatype Pile = Pile(copies: int, score: nat)

  /** The queue loop: take the front card, add its copies to each of the
      next `score` cards, and count them. A card whose matches reach past
      the last card indexes past the end of the queue. */
  method CountCards(scores: seq<nat>) returns (r: Result<int, CardError>)
    ensures r.Ok? <==> Fits(scores)
    ensures r.Ok? ==> r.value == WonTotal(scores, |scores|)
    ensures r.Err? ==> r.error == PastLastCard
  {
    var n := |scores|;
    var queue := seq(n, i requires 0 <= i < n => Pile(1, scores[i]));
    var answer := 0;
    var p := 0;
    while |queue| > 0
      invariant 0 <= p <= n && |queue| == n - p
      invariant forall t | 0 <= t < |queue| :: queue[t].score == scores[p + t]
      invariant forall t | 0 <= t < |queue| :: queue[t].copies == 1 + Gains(scores, p + t, p)
      invariant forall j | 0 <= j < p :: j + scores[j] < n
      invariant answer == WonTotal(scores, p)
      decreases |queue|
    {
      var card := queue[0];
      queue := queue[1..];
      var i := 0;
      while i < card.score
        invariant 0 <= i <= card.score && i <= |queue| && |queue| == n - p - 1
        invariant forall t | 0 <= t < |queue| :: queue[t].score == scores[p + 1 + t]
        invariant forall t | 0 <= t < |queue| ::
          queue[t].copies == 1 + Gains(scores, p + 1 + t, p) + (if t < i then card.copies else 0)
        decreases card.score - i
      {
        if i >= |queue| {
          return Err(PastLastCard);
        }
        queue := queue[i := queue[i].(copies := queue[i].copies + card.copies)];
        i := i + 1;
      }
      answer := answer + card.copies;
      p := p + 1;
    }
    return Ok(answer);
  }

  /** The second part: read every card, give each one copy and its number
      of matches, and run the queue. */
  method PartTwo(lines: seq<string>) returns (r: Result<int, CardError>)
    ensures Traverse(lines, ParseCard).Err? ==> r == Err(Traverse(lines, ParseCard).error)
    ensures Traverse(lines, ParseCard).Ok? ==>
      var cards := Traverse(lines, ParseCard).value;
      var scores := seq(|cards|, i requires 0 <= i < |cards| => Matches(cards[i]));
      (r.Ok? <==> Fits(scores)) && (r.Ok? ==> r.value == WonTotal(scores, |cards|) && r.value >= |lines|)
  {
    match Traverse(lines, ParseCard)
    case Err(e) => return Err(e);
    case Ok(cards) =>
      TraverseValues(lines, ParseCard);
      var scores := seq(|cards|, i requires 0 <= i < |cards| => Matches(cards[i]));
      WonTotalAtLeast(scores, |cards|);
      r := CountCards(scores);
  }

  // A card written out in the puzzle's layout, and read back.

  /** The spelled numbers of a list. */
  function Shows(vs: seq<nat>): seq<string>
    decreases |vs|
  {
    if vs == [] then [] else [Show(vs[0])] + Shows(vs[1..])
  }

  lemma {:induction false} ShowsAt(vs: seq<nat>)
    ensures |Shows(vs)| == |vs| && forall i | 0 <= i < |vs| :: Shows(vs)[i] == Show(vs[i])
    decreases |vs|
  {
    if vs != [] {
      ShowsAt(vs[1..]);
    }
  }

  /** A spelled number holds only digits. */
  lemma ShowAvoids(n: nat, x: char)
    requires !IsDigit(x)
    ensures x !in Show(n) && !IsSpace(Show(n)[0]) && !IsSpace(Show(n)[|Show(n)| - 1])
  {
  }

  /** A text whose stripped, split and non-empty tokens spell the numbers
      reads back as their set. */
  lemma ParseNumbersText(text: string, vs: seq<nat>)
    requires vs != [] && NonEmpty(Split(Strip(text), ' ')) == Shows(vs)
    ensures ParseNumbers(text) == Ok(Elements(vs))
  {
    var ps := Shows(vs);
    ShowsAt(vs);
    forall i | 0 <= i < |ps| ensures ParseNumber(ps[i]) == Ok(vs[i] as int) {
      ParseShow(vs[i]);
    }
    TraverseOk(ps, ParseNumber, vs);
  }

  // The puzzle's layout pads one-digit numbers with an extra blank, so
  // that a list reads `83 86  6 31`.

  /** k blanks. */
  function Blanks(k: nat): string {
    seq(k, _ => ' ')
  }

  /** The empty tokens that k extra blanks leave when split at ' '. */
  function Empties(k: nat): seq<string> {
    seq(k, _ => [])
  }

  /** The tokens of numbers each preceded by its number of extra blanks. */
  function Tokens(vs: seq<nat>, pads: seq<nat>): seq<string>
    requires |pads| == |vs|
    decreases |vs|
  {
    if vs == [] then [] else Empties(pads[0]) + [Show(vs[0])] + Tokens(vs[1..], pads[1..])
  }

  /** The tokens of a list from its first number on. */
  function ListTokens(vs: seq<nat>, pads: seq<nat>): seq<string>
    requires vs != [] && |pads| == |vs|
  {
    [Show(vs[0])] + Tokens(vs[1..], pads[1..])
  }

  /** A number list in the puzzle's layout: number i has pads[i] extra
      blanks in front of it, so `83 86  6 31` has pads [0, 0, 1, 0] and
      ` 6 31` has pads [1, 0]. */
  function ListText(vs: seq<nat>, pads: seq<nat>): string
    requires vs != [] && |pads| == |vs|
  {
    Blanks(pads[0]) + Join(ListTokens(vs, pads), ' ')
  }

  /** No token holds a character that is not a digit. */
  lemma {:induction false} TokensAvoid(vs: seq<nat>, pads: seq<nat>, x: char)
    requires |pads| == |vs| && !IsDigit(x)
    ensures forall p | p in Tokens(vs, pads) :: x !in p
    decreases |vs|
  {
    if vs != [] {
      TokensAvoid(vs[1..], pads[1..], x);
      ShowAvoids(vs[0], x);
    }
  }

  /** The last token is the last number's spelling. */
  lemma {:induction false} TokensLast(vs: seq<nat>, pads: seq<nat>)
    requires vs != [] && |pads| == |vs|
    ensures Tokens(vs, pads) != [] && Tokens(vs, pads)[|Tokens(vs, pads)| - 1] == Show(vs[|vs| - 1])
    decreases |vs|
  {
    if |vs| > 1 {
      TokensLast(vs[1..], pads[1..]);
    }
  }

  lemma {:induction false} NonEmptyAppend(a: seq<string>, b: seq<string>)
    ensures NonEmpty(a + b) == NonEmpty(a) + NonEmpty(b)
    decreases |a|
  {
    if a == [] {
      assert a + b == b;
    } else {
      assert (a + b)[1..] == a[1..] + b;
      NonEmptyAppend(a[1..], b);
    }
  }

  lemma {:induction false} NonEmptyEmpties(k: nat)
    ensures NonEmpty(Empties(k)) == []
    decreases k
  {
    if k > 0 {
      assert Empties(k)[1..] == Empties(k - 1);
      NonEmptyEmpties(k - 1);
    }
  }

  /** Dropping the empty tokens leaves the numbers' spellings. */
  lemma {:induction false} NonEmptyTokens(vs: seq<nat>, pads: seq<nat>)
    requires |pads| == |vs|
    ensures NonEmpty(Tokens(vs, pads)) == Shows(vs)
    decreases |vs|
  {
    if vs != [] {
      var rest := Tokens(vs[1..], pads[1..]);
      NonEmptyAppend(Empties(pads[0]) + [Show(vs[0])], rest);
      NonEmptyAppend(Empties(pads[0]), [Show(vs[0])]);
      NonEmptyEmpties(pads[0]);
      assert NonEmpty([Show(vs[0])]) == [Show(vs[0])];
      NonEmptyTokens(vs[1..], pads[1..]);
    }
  }

  /** The list without its leading blanks: it starts and ends with a
      digit, holds no character but digits and blanks, and splits back
      into its tokens. */
  lemma ListCore(vs: seq<nat>, pads: seq<nat>)
    requires vs != [] && |pads| == |vs|
    ensures var core := Join(ListTokens(vs, pads), ' ');
            && core != [] && !IsSpace(core[0]) && !IsSpace(core[|core| - 1])
            && (forall x | x != ' ' && !IsDigit(x) :: x !in core)
            && Split(core, ' ') == ListTokens(vs, pads)
            && NonEmpty(ListTokens(vs, pads)) == Shows(vs)
  {
    var ts := ListTokens(vs, pads);
    var core := Join(ts, ' ');
    assert core != [] && !IsSpace(core[0]) && !IsSpace(core[|core| - 1]) by {
      ShowAvoids(vs[0], ' ');
      ShowAvoids(vs[|vs| - 1], ' ');
      if |vs| > 1 {
        TokensLast(vs[1..], pads[1..]);
      }
      assert ts[|ts| - 1] == Show(vs[|vs| - 1]);
      JoinEnds(ts, ' ');
    }
    forall x | x != ' ' && !IsDigit(x) ensures x !in core {
      TokensAvoid(vs[1..], pads[1..], x);
      ShowAvoids(vs[0], x);
      JoinAvoids(ts, ' ', x);
    }
    assert Split(core, ' ') == ts by {
      TokensAvoid(vs[1..], pads[1..], ' ');
      ShowAvoids(vs[0], ' ');
      SplitJoin(ts, ' ');
    }
    assert NonEmpty(ts) == Shows(vs) by {
      NonEmptyAppend([Show(vs[0])], Tokens(vs[1..], pads[1..]));
      NonEmptyTokens(vs[1..], pads[1..]);
      assert NonEmpty([Show(vs[0])]) == [Show(vs[0])];
    }
  }

  /** A padded list with any blanks around it reads back as its set. */
  lemma ParseListText(before: string, vs: seq<nat>, pads: seq<nat>, after: string)
    requires vs != [] && |pads| == |vs|
    requires forall i | 0 <= i < |before| :: before[i] == ' '
    requires forall i | 0 <= i < |after| :: after[i] == ' '
    ensures ParseNumbers(before + ListText(vs, pads) + after) == Ok(Elements(vs))
  {
    var core := Join(ListTokens(vs, pads), ' ');
    var lead := before + Blanks(pads[0]);
    ListCore(vs, pads);
    assert before + ListText(vs, pads) + after == lead + core + after;
    StripAround(lead, core, after);
    ParseNumbersText(before + ListText(vs, pads) + after, vs);
  }

  /** A line in the puzzle's layout: `Card   7: 41 48 | 83  6`, the card's
      number padded by idPad blanks and both lists padded. */
  function CardText(idPad: nat, id: nat, winning: seq<nat>, wpads: seq<nat>, ours: seq<nat>, opads: seq<nat>): string
    requires winning != [] && |wpads| == |winning| && ours != [] && |opads| == |ours|
  {
    "Card " + Blanks(idPad) + Show(id) + ": " + ListText(winning, wpads) + " | " + ListText(ours, opads)
  }

  /** A line whose data splits into two lists that read as sets reads as
      that card. */
  lemma ParseCardParts(line: string, head: string, data: string, w: string, o: string, winning: set<int>, ours: set<int>)
    requires Split(line, ':') == [head, data] && Split(Strip(data), '|') == [w, o]
    requires ParseNumbers(w) == Ok(winning) && ParseNumbers(o) == Ok(ours)
    ensures ParseCard(line) == Ok(Card(winning, ours))
  {
  }

  /** A padded list holds neither ':' nor '|', and ends with a digit. */
  lemma ListTextChars(vs: seq<nat>, pads: seq<nat>)
    requires vs != [] && |pads| == |vs|
    ensures var t := ListText(vs, pads);
            && ':' !in t && '|' !in t
            && t != [] && !IsSpace(t[|t| - 1])
  {
    var core := Join(ListTokens(vs, pads), ' ');
    ListCore(vs, pads);
    assert ListText(vs, pads) == Blanks(pads[0]) + core;
  }

  /** The line splits at ':' after the card's number. */
  lemma SplitCardColon(head: string, w: string, o: string)
    requires ':' !in head && ':' !in w && ':' !in o
    ensures Split(head + ": " + w + " | " + o, ':') == [head, " " + w + " | " + o]
  {
    var data := " " + w + " | " + o;
    assert ':' !in data;
    assert head + ": " + w + " | " + o == head + [':'] + data;
    JoinPair(head, data, ':');
    SplitJoin([head, data], ':');
  }

  /** The stripped data splits at '|' into the first list without its
      leading blanks, then a blank, and a blank before the second list. */
  lemma SplitCardBar(winning: seq<nat>, wpads: seq<nat>, o: string)
    requires winning != [] && |wpads| == |winning|
    requires '|' !in o && o != [] && !IsSpace(o[|o| - 1])
    ensures var core := Join(ListTokens(winning, wpads), ' ');
            Split(Strip(" " + ListText(winning, wpads) + " | " + o), '|') == [core + " ", " " + o]
  {
    var core := Join(ListTokens(winning, wpads), ' ');
    ListCore(winning, wpads);
    var mid := core + " | " + o;
    assert " " + ListText(winning, wpads) + " | " + o == (" " + Blanks(wpads[0])) + mid + [];
    StripAround(" " + Blanks(wpads[0]), mid, []);
    assert mid == (core + " ") + ['|'] + (" " + o);
    assert '|' !in core + " " && '|' !in " " + o;
    JoinPair(core + " ", " " + o, '|');
    SplitJoin([core + " ", " " + o], '|');
  }

  /** A card written in the puzzle's layout, padded numbers included,
      reads back as its two sets. */
  lemma ParseCardText(idPad: nat, id: nat, winning: seq<nat>, wpads: seq<nat>, ours: seq<nat>, opads: seq<nat>)
    requires winning != [] && |wpads| == |winning| && ours != [] && |opads| == |ours|
    ensures ParseCard(CardText(idPad, id, winning, wpads, ours, opads)) == Ok(Card(Elements(winning), Elements(ours)))
  {
    var head := "Card " + Blanks(idPad) + Show(id);
    var w, o := ListText(winning, wpads), ListText(ours, opads);
    var core := Join(ListTokens(winning, wpads), ' ');
    ShowAvoids(id, ':');
    assert ':' !in head;
    ListTextChars(winning, wpads);
    ListTextChars(ours, opads);
    SplitCardColon(head, w, o);
    SplitCardBar(winning, wpads, o);
    ListCore(winning, wpads);
    assert ParseNumbers(core + " ") == Ok(Elements(winning)) by {
      assert ListText(winning, [0] + wpads[1..]) == core by {
        assert ListTokens(winning, [0] + wpads[1..]) == ListTokens(winning, wpads);
      }
      ParseListText([], winning, [0] + wpads[1..], " ");
      assert [] + core + " " == core + " ";
    }
    ParseListText(" ", ours, opads, []);
    assert " " + o + [] == " " + o;
    ParseCardParts(CardText(idPad, id, winning, wpads, ours, opads), head, " " + w + " | " + o, core + " ", " " + o,
      Elements(winning), Elements(ours));
  }
}

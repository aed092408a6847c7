/** Day 7, second part: Camel Cards with jokers. A hand's type comes from
    how often its cards repeat, after every joker has become the card the
    hand holds most of; hands are ordered by type, then card by card, and
    each hand wins its bid times its rank. */
module CamelCards {
  import opened Results
  import opened Text

  /** The three-way comparison: -1, 0 or +1. */
  function Compare(a: int, b: int): (r: int)
    ensures r == 0 <==> a == b
    ensures r == -1 <==> a < b
    ensures r == 1 <==> a > b
  {
    if a == b then 0 else if a < b then -1 else 1
  }

  /** Swapping the arguments negates the comparison. */
  lemma CompareSwap(a: int, b: int)
    ensures Compare(a, b) == -Compare(b, a)
  {
  }

  // Cards.

  /** The card symbols from weakest to strongest: the joker is now the
      weakest card, and its position is its strength. */
  const Order: string := "J23456789TQKA"

  /** index_by_card: a card's strength, or None for a symbol the table does
      not hold. */
  function CardIndex(c: char): (r: Option<nat>)
    ensures r.Some? ==> r.value < 13 && Order[r.value] == c
  {
    match c
    case 'J' => Some(0)
    case '2' => Some(1)
    case '3' => Some(2)
    case '4' => Some(3)
    case '5' => Some(4)
    case '6' => Some(5)
    case '7' => Some(6)
    case '8' => Some(7)
    case '9' => Some(8)
    case 'T' => Some(9)
    case 'Q' => Some(10)
    case 'K' => Some(11)
    case 'A' => Some(12)
    case _ => None
  }

  /** The table is a bijection from the thirteen symbols onto 0..12, the
      joker weakest and the ace strongest. */
  lemma CardIndexBijection()
    ensures forall k | 0 <= k < 13 :: CardIndex(Order[k]) == Some(k)
    ensures CardIndex('J') == Some(0) && CardIndex('A') == Some(12)
    ensures forall c :: CardIndex(c).Some? <==> c in Order
  {
    forall k | 0 <= k < 13 ensures CardIndex(Order[k]) == Some(k) {
      assert k in {0, 1, 2, 3, 4, 5, 6, 7, 8, 9, 10, 11, 12};
    }
    forall c | c in Order ensures CardIndex(c).Some? {
      var k :| 0 <= k < 13 && Order[k] == c;
      assert CardIndex(Order[k]) == Some(k);
    }
  }

  // How the cards repeat.

  /** How often c occurs in the cards. */
  function Count(cards: seq<char>, c: char): nat {
    multiset(cards)[c]
  }

  /** The distinct cards. */
  function Uniques(cards: seq<char>): set<char> {
    set c | c in cards
  }

  predicate Distinct(d: seq<char>) {
    forall i, j | 0 <= i < j < |d| :: d[i] != d[j]
  }

  /** The distinct cards, in order of first appearance. */
  function Dedup(cards: seq<char>): seq<char>
    decreases |cards|
  {
    if cards == [] then []
    else
      var d := Dedup(cards[..|cards| - 1]);
      if cards[|cards| - 1] in d then d else d + [cards[|cards| - 1]]
  }

  lemma {:induction false} DedupSpec(cards: seq<char>)
    ensures Distinct(Dedup(cards))
    ensures forall c :: c in Dedup(cards) <==> c in cards
    decreases |cards|
  {
    if cards != [] {
      var p := cards[..|cards| - 1];
      DedupSpec(p);
      assert cards == p + [cards[|cards| - 1]];
    }
  }

  /** A list without repeats has as many members as its set. */
  lemma {:induction false} DistinctSize(d: seq<char>)
    requires Distinct(d)
    ensures |set c | c in d| == |d|
    decreases |d|
  {
    if d != [] {
      var p := d[..|d| - 1];
      assert Distinct(p);
      DistinctSize(p);
      assert (set c | c in d) == (set c | c in p) + {d[|d| - 1]};
      assert d[|d| - 1] !in (set c | c in p);
    }
  }

  /** How often each of the listed cards occurs. */
  function CountsOver(cards: seq<char>, d: seq<char>): (r: seq<nat>)
    ensures |r| == |d|
    decreases |d|
  {
    if d == [] then [] else [Count(cards, d[0])] + CountsOver(cards, d[1..])
  }

  lemma {:induction false} CountsOverAt(cards: seq<char>, d: seq<char>)
    ensures forall i | 0 <= i < |d| :: CountsOver(cards, d)[i] == Count(cards, d[i])
    decreases |d|
  {
    if d != [] {
      CountsOverAt(cards, d[1..]);
    }
  }

  /** unique_count: how often each distinct card occurs, in order of first
      appearance. */
  function Counts(cards: seq<char>): seq<nat> {
    CountsOver(cards, Dedup(cards))
  }

  function Sum(cs: seq<nat>): nat
    decreases |cs|
  {
    if cs == [] then 0 else cs[0] + Sum(cs[1..])
  }

  /** The largest count, 0 for none. */
  function MaxOf(cs: seq<nat>): nat
    decreases |cs|
  {
    if cs == [] then 0 else var m := MaxOf(cs[1..]); if cs[0] >= m then cs[0] else m
  }

  lemma {:induction false} MaxOfSpec(cs: seq<nat>)
    requires cs != []
    ensures MaxOf(cs) in cs && forall i | 0 <= i < |cs| :: cs[i] <= MaxOf(cs)
    decreases |cs|
  {
    if |cs| > 1 {
      MaxOfSpec(cs[1..]);
    }
  }

  /** Adding one card adds one to the count of a listed card and nothing
      otherwise. */
  lemma {:induction false} SumCountsSnoc(cards: seq<char>, c: char, d: seq<char>)
    requires Distinct(d)
    ensures Sum(CountsOver(cards + [c], d)) == Sum(CountsOver(cards, d)) + (if c in d then 1 else 0)
    decreases |d|
  {
    if d != [] {
      assert Distinct(d[1..]);
      SumCountsSnoc(cards, c, d[1..]);
      assert multiset(cards + [c]) == multiset(cards) + multiset{c};
      assert c in d <==> c == d[0] || c in d[1..];
    }
  }

  /** The counts of a repeat-free list holding every card add up to the
      number of cards. */
  lemma {:induction false} SumCounts(cards: seq<char>, d: seq<char>)
    requires Distinct(d) && forall c | c in cards :: c in d
    ensures Sum(CountsOver(cards, d)) == |cards|
    decreases |cards|
  {
    if cards == [] {
      SumNone(d);
    } else {
      var p := cards[..|cards| - 1];
      var c := cards[|cards| - 1];
      assert cards == p + [c];
      SumCounts(p, d);
      SumCountsSnoc(p, c, d);
    }
  }

  lemma {:induction false} SumNone(d: seq<char>)
    ensures Sum(CountsOver([], d)) == 0
    decreases |d|
  {
    if d != [] {
      SumNone(d[1..]);
    }
  }

  /** The counts: one per distinct card, each at least one, adding up to
      the number of cards. */
  lemma CountsSpec(cards: seq<char>)
    ensures |Counts(cards)| == |Uniques(cards)|
    ensures Sum(Counts(cards)) == |cards|
    ensures forall i | 0 <= i < |Counts(cards)| :: Counts(cards)[i] >= 1
    ensures forall i | 0 <= i < |Counts(cards)| :: Counts(cards)[i] == Count(cards, Dedup(cards)[i])
  {
    var d := Dedup(cards);
    DedupSpec(cards);
    DistinctSize(d);
    assert (set c | c in d) == Uniques(cards);
    SumCounts(cards, d);
    CountsOverAt(cards, d);
    forall i | 0 <= i < |d| ensures Count(cards, d[i]) >= 1 {
      assert d[i] in cards;
    }
  }

  // Hand types.

  datatype HandType = HighCard | OnePair | TwoPair | ThreeOfKind | FullHouse | FourOfKind | FiveOfKind

  /** The enumeration's integer value. */
  function Rank(t: HandType): int {
    match t
    case HighCard => 0
    case OnePair => 1
    case TwoPair => 2
    case ThreeOfKind => 3
    case FullHouse => 4
    case FourOfKind => 5
    case FiveOfKind => 6
  }

  /** The type from the number of distinct cards and the largest count. */
  function Classify(n: int, most: int): HandType {
    if n == 5 then HighCard
    else if n == 4 then OnePair
    else if n == 3 then (if most == 3 then ThreeOfKind else TwoPair)
    else if n == 2 then (if most == 4 then FourOfKind else FullHouse)
    else FiveOfKind
  }

  /** natural_type: the type of the cards as they are. */
  function NaturalType(cards: seq<char>): HandType {
    Classify(|Uniques(cards)|, MaxOf(Counts(cards)))
  }

  /** How many counts are two. */
  function Pairs(cs: seq<nat>): nat
    decreases |cs|
  {
    if cs == [] then 0 else (if cs[0] == 2 then 1 else 0) + Pairs(cs[1..])
  }

  /** The puzzle's own description of the types, by how the cards repeat:
      five alike, four alike, three and two alike, three alike, two pairs,
      one pair, all different. */
  function Kind(cs: seq<nat>): HandType {
    if 5 in cs then FiveOfKind
    else if 4 in cs then FourOfKind
    else if 3 in cs then (if 2 in cs then FullHouse else ThreeOfKind)
    else if Pairs(cs) >= 2 then TwoPair
    else if Pairs(cs) == 1 then OnePair
    else HighCard
  }

  /** The counts' summaries, one count at a time. */
  lemma Cons(a: nat, t: seq<nat>)
    ensures Sum([a] + t) == a + Sum(t)
    ensures MaxOf([a] + t) == (if a >= MaxOf(t) then a else MaxOf(t))
    ensures Pairs([a] + t) == (if a == 2 then 1 else 0) + Pairs(t)
    ensures forall x :: x in [a] + t <==> x == a || x in t
  {
    assert ([a] + t)[0] == a;
    assert ([a] + t)[1..] == t;
  }

  /** Positive counts adding up to five: the number of counts and the
      largest of them decide the same type the repeats describe. */
  lemma ClassifyKind(cs: seq<nat>)
    requires Sum(cs) == 5 && forall i | 0 <= i < |cs| :: cs[i] >= 1
    ensures Classify(|cs|, MaxOf(cs)) == Kind(cs)
  {
    SumLong(cs);
    if |cs| == 1 {
      KindOfOneAt(cs);
    } else if |cs| == 2 {
      KindOfTwoAt(cs);
    } else if |cs| == 3 {
      KindOfThreeAt(cs);
    } else if |cs| == 4 {
      KindOfFourAt(cs);
    } else {
      KindOfFiveAt(cs);
    }
  }

  lemma KindOfOneAt(cs: seq<nat>)
    requires |cs| == 1 && Sum(cs) == 5
    ensures Classify(|cs|, MaxOf(cs)) == Kind(cs)
  {
    assert cs == [cs[0]];
    KindOfOne(cs[0]);
  }

  lemma KindOfTwoAt(cs: seq<nat>)
    requires |cs| == 2 && Sum(cs) == 5 && forall i | 0 <= i < |cs| :: cs[i] >= 1
    ensures Classify(|cs|, MaxOf(cs)) == Kind(cs)
  {
    assert cs == [cs[0], cs[1]];
    KindOfTwo(cs[0], cs[1]);
  }

  lemma KindOfThreeAt(cs: seq<nat>)
    requires |cs| == 3 && Sum(cs) == 5 && forall i | 0 <= i < |cs| :: cs[i] >= 1
    ensures Classify(|cs|, MaxOf(cs)) == Kind(cs)
  {
    assert cs == [cs[0], cs[1], cs[2]];
    KindOfThree(cs[0], cs[1], cs[2]);
  }

  lemma KindOfFourAt(cs: seq<nat>)
    requires |cs| == 4 && Sum(cs) == 5 && forall i | 0 <= i < |cs| :: cs[i] >= 1
    ensures Classify(|cs|, MaxOf(cs)) == Kind(cs)
  {
    assert cs == [cs[0], cs[1], cs[2], cs[3]];
    KindOfFour(cs[0], cs[1], cs[2], cs[3]);
  }

  lemma KindOfFiveAt(cs: seq<nat>)
    requires |cs| == 5 && Sum(cs) == 5 && forall i | 0 <= i < |cs| :: cs[i] >= 1
    ensures Classify(|cs|, MaxOf(cs)) == Kind(cs)
  {
    assert cs == [cs[0], cs[1], cs[2], cs[3], cs[4]];
    KindOfFive(cs[0], cs[1], cs[2], cs[3], cs[4]);
  }

  /** One count of five: five alike. */
  lemma KindOfOne(a: nat)
    requires Sum([a]) == 5
    ensures Classify(1, MaxOf([a])) == Kind([a])
  {
    assert [a] == [a] + [];
    Cons(a, []);
  }

  /** Two counts adding up to five: four alike or a full house. */
  lemma KindOfTwo(a: nat, b: nat)
    requires Sum([a, b]) == 5 && a >= 1 && b >= 1
    ensures Classify(2, MaxOf([a, b])) == Kind([a, b])
  {
    Counts2(a, b);
  }

  /** Three counts adding up to five: three alike or two pairs. */
  lemma KindOfThree(a: nat, b: nat, c: nat)
    requires Sum([a, b, c]) == 5 && a >= 1 && b >= 1 && c >= 1
    ensures Classify(3, MaxOf([a, b, c])) == Kind([a, b, c])
  {
    Counts3(a, b, c);
  }

  /** Four counts adding up to five: one pair. */
  lemma KindOfFour(a: nat, b: nat, c: nat, d: nat)
    requires Sum([a, b, c, d]) == 5 && a >= 1 && b >= 1 && c >= 1 && d >= 1
    ensures Classify(4, MaxOf([a, b, c, d])) == Kind([a, b, c, d])
  {
    assert [a, b, c, d] == [a] + [b, c, d];
    Counts3(b, c, d);
    Cons(a, [b, c, d]);
  }

  /** Five counts adding up to five: all different. */
  lemma KindOfFive(a: nat, b: nat, c: nat, d: nat, e: nat)
    requires Sum([a, b, c, d, e]) == 5 && a >= 1 && b >= 1 && c >= 1 && d >= 1 && e >= 1
    ensures Classify(5, MaxOf([a, b, c, d, e])) == Kind([a, b, c, d, e])
  {
    assert [a, b, c, d, e] == [a, b] + [c, d, e];
    assert [a, b] + [c, d, e] == [a] + ([b] + [c, d, e]);
    Counts3(c, d, e);
    Cons(b, [c, d, e]);
    Cons(a, [b] + [c, d, e]);
  }

  lemma Counts2(c: nat, d: nat)
    ensures Sum([c, d]) == c + d && MaxOf([c, d]) == (if c >= d then c else d)
    ensures Pairs([c, d]) == (if c == 2 then 1 else 0) + (if d == 2 then 1 else 0)
    ensures forall x :: x in [c, d] <==> x == c || x == d
  {
    assert [c, d] == [c] + [d];
    Cons(d, []);
    Cons(c, [d]);
  }

  lemma Counts3(c: nat, d: nat, e: nat)
    ensures Sum([c, d, e]) == c + d + e
    ensures MaxOf([c, d, e]) == (if c >= d && c >= e then c else if d >= e then d else e)
    ensures Pairs([c, d, e]) == (if c == 2 then 1 else 0) + (if d == 2 then 1 else 0) + (if e == 2 then 1 else 0)
    ensures forall x :: x in [c, d, e] <==> x == c || x == d || x == e
  {
    assert [c, d, e] == [c] + [d, e];
    Counts2(d, e);
    Cons(c, [d, e]);
  }

  /** More than five positive counts add up to more than five. */
  lemma {:induction false} SumLong(cs: seq<nat>)
    requires forall i | 0 <= i < |cs| :: cs[i] >= 1
    ensures Sum(cs) >= |cs|
    decreases |cs|
  {
    if cs != [] {
      SumLong(cs[1..]);
    }
  }

  /** For five cards, natural_type is the type the repeats describe. */
  lemma NaturalTypeKind(cards: seq<char>)
    requires |cards| == 5
    ensures NaturalType(cards) == Kind(Counts(cards))
  {
    CountsSpec(cards);
    ClassifyKind(Counts(cards));
  }

  // Jokers.

  /** The cards that are not jokers, in order. */
  function Others(cards: seq<char>): seq<char>
    decreases |cards|
  {
    if cards == [] then [] else (if cards[0] == 'J' then [] else [cards[0]]) + Others(cards[1..])
  }

  lemma {:induction false} OthersSpec(cards: seq<char>)
    ensures forall c :: c in Others(cards) <==> c in cards && c != 'J'
    ensures 'J' !in cards ==> Others(cards) == cards
    ensures (forall i | 0 <= i < |cards| :: cards[i] == 'J') ==> Others(cards) == []
    decreases |cards|
  {
    if cards != [] {
      OthersSpec(cards[1..]);
      assert cards == [cards[0]] + cards[1..];
    }
  }

  /** max with a key: the first card whose count is largest. */
  function Favourite(xs: seq<char>): char
    requires xs != []
  {
    Pick(xs, 1, xs[0])
  }

  /** The loop inside max: the best so far is replaced only by a card with
      a strictly larger count. */
  function Pick(xs: seq<char>, i: nat, best: char): char
    requires i <= |xs|
    decreases |xs| - i
  {
    if i == |xs| then best
    else Pick(xs, i + 1, if Count(xs, xs[i]) > Count(xs, best) then xs[i] else best)
  }

  /** The state of max's loop: the best so far is the card at position b,
      no card before it counts as much, and none seen so far counts more. */
  predicate PickState(xs: seq<char>, i: nat, b: nat)
    requires b < i <= |xs|
  {
    && (forall j | 0 <= j < b :: Count(xs, xs[j]) < Count(xs, xs[b]))
    && (forall j | 0 <= j < i :: Count(xs, xs[j]) <= Count(xs, xs[b]))
  }

  lemma {:induction false} PickSpec(xs: seq<char>, i: nat, b: nat)
    requires b < i <= |xs| && PickState(xs, i, b)
    ensures exists k | 0 <= k < |xs| :: xs[k] == Pick(xs, i, xs[b]) && PickState(xs, |xs|, k)
    decreases |xs| - i
  {
    if i == |xs| {
      assert xs[b] == Pick(xs, i, xs[b]);
    } else if Count(xs, xs[i]) > Count(xs, xs[b]) {
      PickSpec(xs, i + 1, i);
    } else {
      PickSpec(xs, i + 1, b);
    }
  }

  /** The favourite card is a card of the list, no card counts more, and
      every card before its first place counts less. */
  lemma FavouriteSpec(xs: seq<char>)
    requires xs != []
    ensures Favourite(xs) in xs
    ensures forall c | c in xs :: Count(xs, c) <= Count(xs, Favourite(xs))
    ensures exists k | 0 <= k < |xs| :: xs[k] == Favourite(xs) && forall j | 0 <= j < k :: Count(xs, xs[j]) < Count(xs, xs[k])
  {
    PickSpec(xs, 1, 0);
    var k :| 0 <= k < |xs| && xs[k] == Favourite(xs) && PickState(xs, |xs|, k);
    forall c | c in xs ensures Count(xs, c) <= Count(xs, Favourite(xs)) {
      var j :| 0 <= j < |xs| && xs[j] == c;
    }
  }

  /** Every joker replaced by m. */
  function Substitute(cards: seq<char>, m: char): seq<char>
    decreases |cards|
  {
    if cards == [] then [] else [if cards[0] == 'J' then m else cards[0]] + Substitute(cards[1..], m)
  }

  lemma {:induction false} SubstituteAt(cards: seq<char>, m: char)
    ensures |Substitute(cards, m)| == |cards|
    ensures forall i | 0 <= i < |cards| :: Substitute(cards, m)[i] == if cards[i] == 'J' then m else cards[i]
    decreases |cards|
  {
    if cards != [] {
      SubstituteAt(cards[1..], m);
    }
  }

  /** type: a hand of jokers only is five alike; otherwise every joker
      becomes the favourite of the other cards before typing. */
  function Type(cards: seq<char>): HandType {
    var others := Others(cards);
    if others == [] then FiveOfKind else NaturalType(Substitute(cards, Favourite(others)))
  }

  /** A hand of jokers only, the empty hand included, is five alike. */
  lemma TypeAllJokers(cards: seq<char>)
    requires forall i | 0 <= i < |cards| :: cards[i] == 'J'
    ensures Type(cards) == FiveOfKind
  {
    OthersSpec(cards);
  }

  /** Without jokers the type is the natural type. */
  lemma TypeNoJokers(cards: seq<char>)
    requires 'J' !in cards
    ensures Type(cards) == NaturalType(cards)
  {
    OthersSpec(cards);
    if cards != [] {
      SubstituteAt(cards, Favourite(cards));
      assert Substitute(cards, Favourite(cards)) == cards;
    }
  }

  /** m is a card besides the jokers that no other such card outnumbers,
      and no such card before m's first place equals it in number. */
  predicate IsFavourite(cards: seq<char>, m: char) {
    var others := Others(cards);
    && m != 'J' && m in cards
    && (forall c | c in others :: Count(others, c) <= Count(others, m))
    && exists k | 0 <= k < |others| :: others[k] == m && forall j | 0 <= j < k :: Count(others, others[j]) < Count(others, m)
  }

  /** pseudo is the hand with every joker replaced by m. */
  predicate Substituted(cards: seq<char>, m: char, pseudo: seq<char>) {
    && |pseudo| == |cards|
    && forall i | 0 <= i < |cards| :: pseudo[i] == if cards[i] == 'J' then m else cards[i]
  }

  /** The favourite of the cards besides the jokers is such a card. */
  lemma FavouriteChosen(cards: seq<char>)
    requires Others(cards) != []
    ensures IsFavourite(cards, Favourite(Others(cards)))
  {
    OthersSpec(cards);
    FavouriteSpec(Others(cards));
  }

  /** With some card besides jokers, the hand is typed as if every joker
      were the card the other cards hold most of, the first such in hand
      order, with every other card where it was. */
  lemma TypeSubstitutes(cards: seq<char>)
    requires exists i | 0 <= i < |cards| :: cards[i] != 'J'
    ensures exists m, pseudo :: IsFavourite(cards, m) && Substituted(cards, m, pseudo) && Type(cards) == NaturalType(pseudo)
  {
    var i :| 0 <= i < |cards| && cards[i] != 'J';
    OthersSpec(cards);
    assert cards[i] in Others(cards);
    var m := Favourite(Others(cards));
    FavouriteChosen(cards);
    SubstituteAt(cards, m);
    assert Substituted(cards, m, Substitute(cards, m));
  }

  // Comparing hands.

  datatype Hand = Hand(cards: seq<char>, bid: int)

  datatype HandError = NotTwoFields | BadBid | UnknownCard(symbol: char) | MissingCard

  /** The card loop of Hand.compare from position i: the first card that
      differs decides. A symbol outside the table fails as the dictionary
      lookup does; running past the end of the second hand fails as the
      index does. */
  function CompareCards(xs: seq<char>, ys: seq<char>, i: nat): Result<int, HandError>
    requires i <= |xs|
    decreases |xs| - i
  {
    if i == |xs| then Ok(0)
    else match CardIndex(xs[i])
      case None => Err(UnknownCard(xs[i]))
      case Some(x) =>
        if i >= |ys| then Err(MissingCard)
        else match CardIndex(ys[i])
          case None => Err(UnknownCard(ys[i]))
          case Some(y) => if Compare(x, y) != 0 then Ok(Compare(x, y)) else CompareCards(xs, ys, i + 1)
  }

  /** Hand.compare: types first, then the cards left to right. */
  function HandCompare(a: Hand, b: Hand): Result<int, HandError> {
    var t := Compare(Rank(Type(a.cards)), Rank(Type(b.cards)));
    if t != 0 then Ok(t) else CompareCards(a.cards, b.cards, 0)
  }

  /** Every card is in the table. */
  predicate Valid(cards: seq<char>) {
    forall i | 0 <= i < |cards| :: CardIndex(cards[i]).Some?
  }

  /** The strengths of valid cards. */
  function Strengths(cards: seq<char>): (r: seq<int>)
    requires Valid(cards)
    ensures |r| == |cards|
    decreases |cards|
  {
    if cards == [] then [] else [CardIndex(cards[0]).value] + Strengths(cards[1..])
  }

  lemma {:induction false} StrengthsAt(cards: seq<char>)
    requires Valid(cards)
    ensures forall i | 0 <= i < |cards| :: Strengths(cards)[i] == CardIndex(cards[i]).value
    decreases |cards|
  {
    if cards != [] {
      StrengthsAt(cards[1..]);
    }
  }

  /** Equal strengths mean equal cards. */
  lemma StrengthsInjective(xs: seq<char>, ys: seq<char>)
    requires Valid(xs) && Valid(ys) && Strengths(xs) == Strengths(ys)
    ensures xs == ys
  {
    StrengthsAt(xs);
    StrengthsAt(ys);
    forall i | 0 <= i < |xs| ensures xs[i] == ys[i] {
      assert CardIndex(xs[i]).value == CardIndex(ys[i]).value;
    }
  }

  /** Lexicographic comparison of equally long integer lists. */
  function Lex(xs: seq<int>, ys: seq<int>): int
    requires |xs| == |ys|
    decreases |xs|
  {
    if xs == [] then 0 else if Compare(xs[0], ys[0]) != 0 then Compare(xs[0], ys[0]) else Lex(xs[1..], ys[1..])
  }

  lemma {:induction false} LexSpec(xs: seq<int>, ys: seq<int>)
    requires |xs| == |ys|
    ensures Lex(xs, ys) == -Lex(ys, xs)
    ensures Lex(xs, ys) == 0 <==> xs == ys
    ensures -1 <= Lex(xs, ys) <= 1
    decreases |xs|
  {
    if xs != [] {
      LexSpec(xs[1..], ys[1..]);
      assert xs == [xs[0]] + xs[1..] && ys == [ys[0]] + ys[1..];
    }
  }

  lemma {:induction false} LexTransitive(xs: seq<int>, ys: seq<int>, zs: seq<int>)
    requires |xs| == |ys| == |zs| && Lex(xs, ys) <= 0 && Lex(ys, zs) <= 0
    ensures Lex(xs, zs) <= 0
    ensures Lex(xs, ys) < 0 || Lex(ys, zs) < 0 ==> Lex(xs, zs) < 0
    decreases |xs|
  {
    if xs != [] && xs[0] == ys[0] == zs[0] {
      LexTransitive(xs[1..], ys[1..], zs[1..]);
    }
  }

  /** What a valid hand is ordered by: its type's rank, then its cards'
      strengths. */
  function Key(h: Hand): seq<int>
    requires Valid(h.cards)
  {
    [Rank(Type(h.cards))] + Strengths(h.cards)
  }

  lemma {:induction false} CompareCardsLex(xs: seq<char>, ys: seq<char>, i: nat)
    requires Valid(xs) && Valid(ys) && |xs| == |ys| && i <= |xs|
    ensures CompareCards(xs, ys, i) == Ok(Lex(Strengths(xs)[i..], Strengths(ys)[i..]))
    decreases |xs| - i
  {
    StrengthsAt(xs);
    StrengthsAt(ys);
    if i < |xs| {
      CompareCardsLex(xs, ys, i + 1);
      assert Strengths(xs)[i..][1..] == Strengths(xs)[i + 1..];
      assert Strengths(ys)[i..][1..] == Strengths(ys)[i + 1..];
    }
  }

  /** For valid hands of one length, Hand.compare never fails and is the
      lexicographic comparison of the keys. */
  lemma HandCompareLex(a: Hand, b: Hand)
    requires Valid(a.cards) && Valid(b.cards) && |a.cards| == |b.cards|
    ensures HandCompare(a, b) == Ok(Lex(Key(a), Key(b)))
  {
    CompareCardsLex(a.cards, b.cards, 0);
    assert Strengths(a.cards)[0..] == Strengths(a.cards);
    assert Strengths(b.cards)[0..] == Strengths(b.cards);
    assert Key(a)[1..] == Strengths(a.cards);
    assert Key(b)[1..] == Strengths(b.cards);
  }

  /** Valid cards, as many as the other hand's. */
  predicate Comparable(a: Hand, b: Hand) {
    Valid(a.cards) && Valid(b.cards) && |a.cards| == |b.cards|
  }

  /** For comparable hands, Hand.compare answers -1, 0 or +1, swapping the
      hands negates it, and it answers 0 exactly for equal cards. */
  lemma HandCompareSwap(a: Hand, b: Hand)
    requires Comparable(a, b)
    ensures HandCompare(a, b) in {Ok(-1), Ok(0), Ok(1)}
    ensures HandCompare(b, a) == Ok(-HandCompare(a, b).value)
    ensures HandCompare(a, b) == Ok(0) <==> a.cards == b.cards
  {
    HandCompareLex(a, b);
    HandCompareLex(b, a);
    KeyLex(a, b);
  }

  /** The comparison of the keys of comparable hands is -1, 0 or +1, is
      negated by swapping them, and is 0 exactly for equal cards. */
  lemma KeyLex(a: Hand, b: Hand)
    requires Comparable(a, b)
    ensures Lex(Key(a), Key(b)) in {-1, 0, 1}
    ensures Lex(Key(b), Key(a)) == -Lex(Key(a), Key(b))
    ensures Lex(Key(a), Key(b)) == 0 <==> a.cards == b.cards
  {
    LexSpec(Key(a), Key(b));
    KeyInjective(a, b);
  }

  /** Equal keys come from equal cards. */
  lemma KeyInjective(a: Hand, b: Hand)
    requires Comparable(a, b)
    ensures Key(a) == Key(b) <==> a.cards == b.cards
  {
    if Key(a) == Key(b) {
      assert Strengths(a.cards) == Key(a)[1..] == Key(b)[1..] == Strengths(b.cards);
      StrengthsInjective(a.cards, b.cards);
    }
  }

  /** Hand.compare is transitive on comparable hands, and strict when
      either step is. */
  lemma HandCompareTransitive(a: Hand, b: Hand, c: Hand, x: int, y: int)
    requires Comparable(a, b) && Comparable(b, c)
    requires HandCompare(a, b) == Ok(x) && HandCompare(b, c) == Ok(y) && x <= 0 && y <= 0
    ensures HandCompare(a, c).Ok? && HandCompare(a, c).value <= 0
    ensures x < 0 || y < 0 ==> HandCompare(a, c).value < 0
  {
    HandCompareLex(a, b);
    HandCompareLex(b, c);
    HandCompareLex(a, c);
    LexTransitive(Key(a), Key(b), Key(c));
  }

  /** Hand.compare fails only when the types tie and then a card is
      outside the table or the second hand runs out of cards. */
  lemma HandCompareFails(a: Hand, b: Hand)
    requires HandCompare(a, b).Err?
    ensures Type(a.cards) == Type(b.cards)
    ensures !Valid(a.cards) || !Valid(b.cards) || |b.cards| < |a.cards|
  {
    if Valid(a.cards) && Valid(b.cards) && |b.cards| >= |a.cards| {
      CompareCardsOk(a.cards, b.cards, 0);
    }
    RankInjective(Type(a.cards), Type(b.cards));
  }

  lemma {:induction false} CompareCardsOk(xs: seq<char>, ys: seq<char>, i: nat)
    requires Valid(xs) && Valid(ys) && |ys| >= |xs| && i <= |xs|
    ensures CompareCards(xs, ys, i).Ok?
    decreases |xs| - i
  {
    if i < |xs| {
      CompareCardsOk(xs, ys, i + 1);
    }
  }

  lemma RankInjective(s: HandType, t: HandType)
    ensures Rank(s) == Rank(t) <==> s == t
  {
  }

  // The score.

  /** The rank-weighted sum: the hand at position i wins (i + 1) times its
      bid. */
  function Winnings(hands: seq<Hand>): int
    decreases |hands|
  {
    if hands == [] then 0 else Winnings(hands[..|hands| - 1]) + |hands| * hands[|hands| - 1].bid
  }

  /** The scoring loop over the sorted hands. */
  method Score(hands: seq<Hand>) returns (score: int)
    ensures score == Winnings(hands)
  {
    score := 0;
    var rank := 0;
    while rank < |hands|
      invariant 0 <= rank <= |hands|
      invariant score == Winnings(hands[..rank])
    {
      assert hands[..rank + 1][..rank] == hands[..rank];
      score := score + (rank + 1) * hands[rank].bid;
      rank := rank + 1;
    }
    assert hands[..|hands|] == hands;
  }

  /** Valid hands of one length, each ordered strictly before the next: the
      order the sort leaves distinct hands in. */
  predicate Ascending(hands: seq<Hand>) {
    && (forall i | 0 <= i < |hands| :: Valid(hands[i].cards) && |hands[i].cards| == |hands[0].cards|)
    && (forall i, j | 0 <= i < j < |hands| :: HandCompare(hands[i], hands[j]) == Ok(-1))
  }

  /** How many of the first n hands compare below h. */
  function Below(hands: seq<Hand>, n: nat, h: Hand): nat
    requires n <= |hands|
  {
    CountTrue(LessFlags(hands, h), n)
  }

  /** In ascending order, exactly the hands before a hand are below it. */
  lemma BelowPosition(hands: seq<Hand>, n: nat, i: nat)
    requires Ascending(hands) && n <= |hands| && i < |hands|
    ensures Below(hands, n, hands[i]) == if n <= i then n else i
  {
    var flags := LessFlags(hands, hands[i]);
    forall k | 0 <= k < |flags| ensures flags[k] <==> k < i {
      OrderAt(hands, k, i);
    }
    CountTruePrefix(flags, n, i);
  }

  /** For each hand, whether it compares below h. */
  function LessFlags(hands: seq<Hand>, h: Hand): (r: seq<bool>)
    ensures |r| == |hands|
  {
    seq(|hands|, k requires 0 <= k < |hands| => HandCompare(hands[k], h) == Ok(-1))
  }

  /** How many of the first n flags are set. */
  function CountTrue(flags: seq<bool>, n: nat): nat
    requires n <= |flags|
  {
    if n == 0 then 0 else CountTrue(flags, n - 1) + if flags[n - 1] then 1 else 0
  }

  /** When exactly the flags before i are set, n of them are counted up
      to i and i from there on. */
  lemma {:induction false} CountTruePrefix(flags: seq<bool>, n: nat, i: nat)
    requires n <= |flags| && forall k | 0 <= k < |flags| :: flags[k] <==> k < i
    ensures CountTrue(flags, n) == if n <= i then n else i
  {
    if n > 0 {
      CountTruePrefix(flags, n - 1, i);
    }
  }

  /** In ascending order, a hand compares below another exactly when it
      comes first. */
  lemma OrderAt(hands: seq<Hand>, k: nat, i: nat)
    requires Ascending(hands) && k < |hands| && i < |hands|
    ensures HandCompare(hands[k], hands[i]) == Ok(-1) <==> k < i
  {
    assert Comparable(hands[i], hands[k]);
    if k > i {
      assert HandCompare(hands[i], hands[k]) == Ok(-1);
      HandCompareSwap(hands[i], hands[k]);
    } else if k == i {
      HandCompareSwap(hands[i], hands[i]);
    }
  }

  /** Each hand's bid weighted by one more than the number of hands below
      it, over the first n hands. */
  function RankedWinnings(hands: seq<Hand>, n: nat): int
    requires n <= |hands|
  {
    if n == 0 then 0 else RankedWinnings(hands, n - 1) + (Below(hands, |hands|, hands[n - 1]) + 1) * hands[n - 1].bid
  }

  /** For distinct hands in ascending order, the score is every bid times
      the hand's rank: one more than the number of weaker hands. */
  lemma WinningsByRank(hands: seq<Hand>, n: nat)
    requires Ascending(hands) && n <= |hands|
    ensures Winnings(hands[..n]) == RankedWinnings(hands, n)
  {
    forall k | 0 <= k < |hands| ensures Below(hands, |hands|, hands[k]) == k {
      BelowPosition(hands, |hands|, k);
    }
    WinningsByBelow(hands, n);
  }

  /** The same, from each hand's count of hands below it being its
      position. */
  lemma {:induction false} WinningsByBelow(hands: seq<Hand>, n: nat)
    requires n <= |hands| && forall k | 0 <= k < |hands| :: Below(hands, |hands|, hands[k]) == k
    ensures Winnings(hands[..n]) == RankedWinnings(hands, n)
  {
    if n > 0 {
      var w := hands[..n];
      assert w[..n - 1] == hands[..n - 1] && w[n - 1] == hands[n - 1];
      assert Winnings(w) == Winnings(hands[..n - 1]) + n * hands[n - 1].bid;
      assert RankedWinnings(hands, n) == RankedWinnings(hands, n - 1) + n * hands[n - 1].bid;
      WinningsByBelow(hands, n - 1);
    }
  }

  // Reading a hand.

  /** A line: the cards, a blank, the bid. */
  function ParseHand(line: string): Result<Hand, HandError> {
    var parts := Split(line, ' ');
    if |parts| != 2 then Err(NotTwoFields)
    else match ParseInt(parts[1])
      case None => Err(BadBid)
      case Some(bid) => Ok(Hand(parts[0], bid))
  }

  /** Cards without a blank, a blank and a bid read back as that hand. */
  lemma ParseHandText(cards: string, bid: int)
    requires ' ' !in cards
    ensures ParseHand(cards + " " + ShowInt(bid)) == Ok(Hand(cards, bid))
  {
    ShowIntChars(bid);
    assert ' ' !in ShowInt(bid);
    JoinPair(cards, ShowInt(bid), ' ');
    SplitJoin([cards, ShowInt(bid)], ' ');
    ParseShowInt(bid);
  }

  /** A line with more or fewer than one blank is refused. */
  lemma ParseHandFields(line: string)
    requires |Split(line, ' ')| != 2
    ensures ParseHand(line) == Err(NotTwoFields)
  {
  }
}

/** Day 1: the calibration value of a line is the two-digit number made of
    its first and last digit. The first part reads digit characters only;
    the second also reads the spelled-out words "one" to "nine", which may
    overlap ("eightwo" gives 8 and then 2). */
module Trebuchet {
  import opened Results
  import opened Text

  /** Taking digits[0] of a line without digits raises IndexError. */
  datatype CalibrationError = NoDigit

  /** The digit characters of a line, in order. */
  function Digits(line: string): (r: string)
    ensures AllDigits(r) && |r| <= |line|
    decreases |line|
  {
    if line == [] then []
    else (if IsDigit(line[0]) then [line[0]] else []) + Digits(line[1..])
  }

  /** Keeping digits distributes over concatenation. */
  lemma {:induction false} DigitsAppend(a: string, b: string)
    ensures Digits(a + b) == Digits(a) + Digits(b)
    decreases |a|
  {
    if a != [] {
      assert (a + b)[1..] == a[1..] + b;
      DigitsAppend(a[1..], b);
    } else {
      assert a + b == b;
    }
  }

  /** A line keeps no digit exactly when it has no digit character. */
  lemma {:induction false} DigitsEmpty(line: string)
    ensures Digits(line) == [] <==> forall k | 0 <= k < |line| :: !IsDigit(line[k])
    decreases |line|
  {
    if line != [] {
      DigitsEmpty(line[1..]);
      assert forall k | 1 <= k < |line| :: line[k] == line[1..][k - 1];
    }
  }

  /** Position i holds the first digit of the line. */
  predicate FirstDigitAt(line: string, i: int) {
    0 <= i < |line| && IsDigit(line[i]) && forall k | 0 <= k < i :: !IsDigit(line[k])
  }

  /** Position j holds the last digit of the line. */
  predicate LastDigitAt(line: string, j: int) {
    0 <= j < |line| && IsDigit(line[j]) && forall k | j < k < |line| :: !IsDigit(line[k])
  }

  /** The first kept digit is the line's first digit. */
  lemma {:induction false} DigitsHead(line: string, i: nat)
    requires FirstDigitAt(line, i)
    ensures Digits(line) != [] && Digits(line)[0] == line[i]
    decreases i
  {
    if i > 0 {
      assert FirstDigitAt(line[1..], i - 1);
      DigitsHead(line[1..], i - 1);
    }
  }

  /** The last kept digit is the line's last digit. */
  lemma {:induction false} DigitsTail(line: string, j: nat)
    requires LastDigitAt(line, j)
    ensures Digits(line) != [] && Digits(line)[|Digits(line)| - 1] == line[j]
    decreases |line|
  {
    var n := |line|;
    var init := line[..n - 1];
    DigitsAppend(init, [line[n - 1]]);
    assert init + [line[n - 1]] == line;
    if j < n - 1 {
      assert Digits([line[n - 1]]) == [];
      assert LastDigitAt(init, j);
      DigitsTail(init, j);
    }
  }

  /** Joining the first and last recorded digit and reading the pair as a
      number; with no digit recorded the lookup fails. */
  function Calibration(digits: string): (r: Result<nat, CalibrationError>)
    requires AllDigits(digits)
    ensures r.Err? <==> digits == []
    ensures r.Ok? ==> r.value == 10 * DigitValue(digits[0]) + DigitValue(digits[|digits| - 1])
  {
    if digits == [] then Err(NoDigit)
    else
      DecimalPair(digits[0], digits[|digits| - 1]);
      Ok(Decimal([digits[0], digits[|digits| - 1]]))
  }

  /** A single recorded digit d counts as both first and last: 11 * d. */
  lemma SingleDigit(c: char)
    requires IsDigit(c)
    ensures Calibration([c]) == Ok(11 * DigitValue(c))
  {
    DecimalPair(c, c);
  }

  /** First part: the calibration value of one line. */
  function LineValue(line: string): Result<nat, CalibrationError> {
    Calibration(Digits(line))
  }

  /** The first part fails on exactly the lines without a digit. */
  lemma LineValueFails(line: string)
    ensures LineValue(line).Err? <==> forall k | 0 <= k < |line| :: !IsDigit(line[k])
  {
    DigitsEmpty(line);
  }

  /** The first part's value is 10 times the line's first digit plus its last. */
  lemma LineValueFirstLast(line: string, i: nat, j: nat)
    requires FirstDigitAt(line, i) && LastDigitAt(line, j)
    ensures LineValue(line) == Ok(10 * DigitValue(line[i]) + DigitValue(line[j]))
  {
    var d := Digits(line);
    DigitsHead(line, i);
    DigitsTail(line, j);
    DecimalPair(d[0], d[|d| - 1]);
  }

  /** An index into the script's table of the nine number words. */
  type WordIndex = n: nat | n < 9

  /** Number word n of the script's table, counting from 0: it spells n + 1. */
  function Word(n: WordIndex): (w: string)
    ensures |w| >= 3
  {
    match n
    case 0 => "one"
    case 1 => "two"
    case 2 => "three"
    case 3 => "four"
    case 4 => "five"
    case 5 => "six"
    case 6 => "seven"
    case 7 => "eight"
    case _ => "nine"
  }

  /** The letters a number word can begin with. */
  predicate Initial(c: char) {
    c == 'o' || c == 't' || c == 'f' || c == 's' || c == 'e' || c == 'n'
  }

  /** Every number word begins with one of the six initials. */
  lemma WordInitial(n: WordIndex)
    ensures Initial(Word(n)[0])
  {
  }

  /** Two number words that share their first two letters are the same word. */
  lemma WordsDiffer(a: WordIndex, b: WordIndex)
    requires Word(a)[0] == Word(b)[0] && Word(a)[1] == Word(b)[1]
    ensures a == b
  {
  }

  /** The indices (from k on) of the words that begin with c, in table order:
      the script's table grouping words by their first letter. */
  function Group(c: char, k: nat): seq<WordIndex>
    requires k <= 9
    decreases 9 - k
  {
    if k == 9 then []
    else (if Word(k)[0] == c then [k] else []) + Group(c, k + 1)
  }

  /** The group of c holds exactly the words that begin with c. */
  lemma {:induction false} GroupMembers(c: char, k: nat)
    requires k <= 9
    ensures forall n: WordIndex | n in Group(c, k) :: k <= n && Word(n)[0] == c
    ensures forall n: WordIndex | k <= n && Word(n)[0] == c :: n in Group(c, k)
    decreases 9 - k
  {
    if k < 9 {
      GroupMembers(c, k + 1);
    }
  }

  /** A letter that no word from k on begins with has an empty group. */
  lemma {:induction false} GroupEmpty(c: char, k: nat)
    requires k <= 9
    requires forall n: WordIndex | k <= n :: Word(n)[0] != c
    ensures Group(c, k) == []
    decreases 9 - k
  {
    if k < 9 {
      GroupEmpty(c, k + 1);
    }
  }

  /** The slice line[i:i+len(w)] equals w (Python slicing stops at the end of
      the line, so a word running past the end does not match). */
  predicate MatchesAt(line: string, i: nat, w: string) {
    i + |w| <= |line| && line[i..i + |w|] == w
  }

  /** A matching word agrees with the line letter by letter. */
  lemma MatchChar(line: string, i: nat, w: string, k: nat)
    requires MatchesAt(line, i, w) && k < |w|
    ensures i + k < |line| && line[i + k] == w[k]
  {
    assert line[i..i + |w|][k] == line[i + k];
  }

  /** No number word is a prefix of another, so at most one matches at any
      position. */
  lemma AtMostOneWord(line: string, i: nat, a: WordIndex, b: WordIndex)
    requires MatchesAt(line, i, Word(a)) && MatchesAt(line, i, Word(b))
    ensures a == b
  {
    MatchChar(line, i, Word(a), 0);
    MatchChar(line, i, Word(a), 1);
    MatchChar(line, i, Word(b), 0);
    MatchChar(line, i, Word(b), 1);
    WordsDiffer(a, b);
  }

  /** The digit character that word n spells. */
  function WordDigit(n: WordIndex): (c: char)
    ensures IsDigit(c) && DigitValue(c) == n as nat + 1
  {
    DigitChar(n as nat + 1)
  }

  /** The first of the candidate words that matches at i, as its digit. */
  function FirstMatch(line: string, i: nat, cands: seq<WordIndex>): (r: Option<char>)
    ensures r.Some? ==> IsDigit(r.value)
  {
    if cands == [] then None
    else if MatchesAt(line, i, Word(cands[0])) then Some(WordDigit(cands[0]))
    else FirstMatch(line, i, cands[1..])
  }

  /** A candidate that matches is the one found, whatever the order. */
  lemma {:induction false} FirstMatchFinds(line: string, i: nat, cands: seq<WordIndex>, n: WordIndex)
    requires n in cands && MatchesAt(line, i, Word(n))
    ensures FirstMatch(line, i, cands) == Some(WordDigit(n))
    decreases |cands|
  {
    if MatchesAt(line, i, Word(cands[0])) {
      AtMostOneWord(line, i, cands[0], n);
    } else {
      assert n in cands[1..];
      FirstMatchFinds(line, i, cands[1..], n);
    }
  }

  /** When no candidate matches, nothing is found. */
  lemma {:induction false} FirstMatchNone(line: string, i: nat, cands: seq<WordIndex>)
    requires forall n | n in cands :: !MatchesAt(line, i, Word(n))
    ensures FirstMatch(line, i, cands) == None
    decreases |cands|
  {
    if cands != [] {
      assert cands[0] in cands;
      assert forall n | n in cands[1..] :: n in cands;
      FirstMatchNone(line, i, cands[1..]);
    }
  }

  /** The word read at position i: the line's character there must have a
      group, and the group's first matching word wins. */
  function WordAt(line: string, i: nat): Option<char>
    requires i < |line|
  {
    FirstMatch(line, i, Group(line[i], 0))
  }

  /** Position i reads word n exactly when word n is spelled there. */
  lemma WordAtIs(line: string, i: nat, n: WordIndex)
    requires i < |line| && MatchesAt(line, i, Word(n))
    ensures WordAt(line, i) == Some(WordDigit(n))
  {
    MatchChar(line, i, Word(n), 0);
    GroupMembers(line[i], 0);
    FirstMatchFinds(line, i, Group(line[i], 0), n);
  }

  /** Position i reads no word exactly when none of the nine is spelled there. */
  lemma WordAtNone(line: string, i: nat)
    requires i < |line|
    ensures WordAt(line, i).None? <==> forall n: WordIndex :: !MatchesAt(line, i, Word(n))
  {
    if n: WordIndex :| MatchesAt(line, i, Word(n)) {
      WordAtIs(line, i, n);
    } else {
      FirstMatchNone(line, i, Group(line[i], 0));
    }
  }

  /** All nine words, in table order. */
  function AllWords(): (r: seq<WordIndex>)
    ensures forall n: WordIndex :: n in r
  {
    [0, 1, 2, 3, 4, 5, 6, 7, 8]
  }

  /** Looking only at the words that share the line's letter finds the same
      word as trying all nine words in order. */
  lemma GroupedLookupAgrees(line: string, i: nat)
    requires i < |line|
    ensures WordAt(line, i) == FirstMatch(line, i, AllWords())
  {
    if n: WordIndex :| MatchesAt(line, i, Word(n)) {
      WordAtIs(line, i, n);
      FirstMatchFinds(line, i, AllWords(), n);
    } else {
      WordAtNone(line, i);
      FirstMatchNone(line, i, AllWords());
    }
  }

  /** A character that begins no number word reads no word. */
  lemma NoGroup(line: string, i: nat)
    requires i < |line| && !Initial(line[i])
    ensures WordAt(line, i) == None
  {
    forall n: WordIndex
      ensures Word(n)[0] != line[i]
    {
      WordInitial(n);
    }
    GroupEmpty(line[i], 0);
  }

  /** A number word starts with a letter, so a position that reads a word
      does not also read a digit character. */
  lemma WordNotDigit(line: string, i: nat)
    requires i < |line| && WordAt(line, i).Some?
    ensures !IsDigit(line[i])
  {
    if IsDigit(line[i]) {
      NoGroup(line, i);
    }
  }

  /** What position i contributes to the second part's digit list: the word
      starting there, then the character itself if it is a digit. */
  function Found(line: string, i: nat): (r: string)
    requires i < |line|
    ensures |r| <= 1 && AllDigits(r)
  {
    var w := WordAt(line, i);
    if w.Some? then
      WordNotDigit(line, i);
      [w.value]
    else if IsDigit(line[i]) then [line[i]]
    else []
  }

  /** What every position contributes, left to right. */
  function Contributions(line: string): (r: seq<string>)
    ensures |r| == |line|
    ensures forall k | 0 <= k < |r| :: |r[k]| <= 1 && AllDigits(r[k])
  {
    seq(|line|, i requires 0 <= i < |line| => Found(line, i))
  }

  /** The pieces glued together in order. */
  function Concat(parts: seq<string>): string
    decreases |parts|
  {
    if parts == [] then [] else parts[0] + Concat(parts[1..])
  }

  /** The second part's digit list: the script's while loop advances one
      position at a time, so overlapping words are all read. */
  function Scan(line: string): string {
    Concat(Contributions(line))
  }

  /** Gluing pieces of digits gives digits. */
  lemma {:induction false} ConcatDigits(parts: seq<string>)
    requires forall k | 0 <= k < |parts| :: AllDigits(parts[k])
    ensures AllDigits(Concat(parts))
    decreases |parts|
  {
    if parts != [] {
      ConcatDigits(parts[1..]);
      var a, b := parts[0], Concat(parts[1..]);
      assert forall k | 0 <= k < |a + b| :: (a + b)[k] == if k < |a| then a[k] else b[k - |a|];
    }
  }

  lemma ScanDigits(line: string)
    ensures AllDigits(Scan(line))
  {
    ConcatDigits(Contributions(line));
  }

  /** Gluing distributes over concatenation of the piece lists. */
  lemma {:induction false} ConcatAppend(a: seq<string>, b: seq<string>)
    ensures Concat(a + b) == Concat(a) + Concat(b)
    decreases |a|
  {
    if a == [] {
      assert a + b == b;
    } else {
      assert (a + b)[1..] == a[1..] + b;
      ConcatAppend(a[1..], b);
    }
  }

  /** Gluing gives nothing exactly when every piece is empty. */
  lemma {:induction false} ConcatEmpty(parts: seq<string>)
    ensures Concat(parts) == [] <==> forall m | 0 <= m < |parts| :: parts[m] == []
    decreases |parts|
  {
    if parts != [] {
      ConcatEmpty(parts[1..]);
      assert forall m | 1 <= m < |parts| :: parts[m] == parts[1..][m - 1];
    }
  }

  /** parts[k] is the first non-empty piece. */
  predicate FirstPiece(parts: seq<string>, k: int) {
    0 <= k < |parts| && parts[k] != [] && forall m | 0 <= m < k :: parts[m] == []
  }

  /** parts[k] is the last non-empty piece. */
  predicate LastPiece(parts: seq<string>, k: int) {
    0 <= k < |parts| && parts[k] != [] && forall m | k < m < |parts| :: parts[m] == []
  }

  /** The glued string starts with the first non-empty piece. */
  lemma {:induction false} ConcatHead(parts: seq<string>, k: nat)
    requires FirstPiece(parts, k)
    ensures Concat(parts) != [] && Concat(parts)[0] == parts[k][0]
    decreases k
  {
    if k > 0 {
      assert FirstPiece(parts[1..], k - 1);
      ConcatHead(parts[1..], k - 1);
    }
  }

  /** The glued string ends with the last non-empty piece. */
  lemma {:induction false} ConcatLast(parts: seq<string>, k: nat)
    requires LastPiece(parts, k)
    ensures Concat(parts) != [] && Concat(parts)[|Concat(parts)| - 1] == parts[k][|parts[k]| - 1]
    decreases k
  {
    if k == 0 {
      ConcatEmpty(parts[1..]);
    } else {
      assert LastPiece(parts[1..], k - 1);
      ConcatLast(parts[1..], k - 1);
    }
  }

  /** Pieces that each hold a line's character when it is a digit glue to
      the line's digits. */
  lemma {:induction false} ConcatDigitPieces(parts: seq<string>, line: string)
    requires |parts| == |line|
    requires forall k | 0 <= k < |line| :: parts[k] == if IsDigit(line[k]) then [line[k]] else []
    ensures Concat(parts) == Digits(line)
    decreases |line|
  {
    if line != [] {
      ConcatDigitPieces(parts[1..], line[1..]);
    }
  }

  /** Second part: the calibration value of one line. */
  function LineValueWords(line: string): Result<nat, CalibrationError> {
    ScanDigits(line);
    Calibration(Scan(line))
  }

  /** The second part fails on exactly the lines where no position reads. */
  lemma LineValueWordsFails(line: string)
    ensures LineValueWords(line).Err? <==> forall k | 0 <= k < |line| :: Contributions(line)[k] == []
  {
    ScanDigits(line);
    ConcatEmpty(Contributions(line));
  }

  /** Digit pieces glued and calibrated give 10 times the first digit of
      the first non-empty piece plus the last digit of the last one. */
  lemma CalibrationOfPieces(parts: seq<string>, i: nat, j: nat)
    requires forall k | 0 <= k < |parts| :: AllDigits(parts[k])
    requires FirstPiece(parts, i) && LastPiece(parts, j)
    ensures AllDigits(parts[i]) && AllDigits(parts[j]) && AllDigits(Concat(parts))
    ensures Calibration(Concat(parts)) == Ok(10 * DigitValue(parts[i][0]) + DigitValue(parts[j][|parts[j]| - 1]))
  {
    var d := Concat(parts);
    ConcatDigits(parts);
    ConcatHead(parts, i);
    ConcatLast(parts, j);
    DecimalPair(d[0], d[|d| - 1]);
  }

  /** The second part's value is 10 times the digit read at the first
      position that reads anything, plus the digit read at the last; parts
      are the line's contributions. */
  lemma LineValueWordsFirstLast(line: string, parts: seq<string>, i: nat, j: nat)
    requires parts == Contributions(line)
    requires FirstPiece(parts, i) && LastPiece(parts, j)
    ensures AllDigits(parts[i]) && AllDigits(parts[j])
    ensures LineValueWords(line) == Ok(10 * DigitValue(parts[i][0]) + DigitValue(parts[j][|parts[j]| - 1]))
  {
    CalibrationOfPieces(parts, i, j);
  }

  /** On a line where no number word is spelled, the second part reads
      exactly the first part's digits. */
  lemma ScanWithoutWords(line: string)
    requires forall k | 0 <= k < |line| :: WordAt(line, k).None?
    ensures Scan(line) == Digits(line)
    ensures LineValueWords(line) == LineValue(line)
  {
    var parts := Contributions(line);
    forall k | 0 <= k < |line|
      ensures parts[k] == if IsDigit(line[k]) then [line[k]] else []
    {
    }
    ConcatDigitPieces(parts, line);
  }

  /** The contributions of a line are what each of its positions reads. */
  lemma ContributionsAre(line: string, parts: seq<string>, expected: seq<string>)
    requires parts == Contributions(line) && |expected| == |line|
    requires forall k | 0 <= k < |line| :: Found(line, k) == expected[k]
    ensures parts == expected
  {
  }

  /** "eight" is read at position 0 and "two" at position 4. */
  lemma EightwoWords()
    ensures Found("eightwo", 0) == "8" && Found("eightwo", 4) == "2"
  {
    WordAtIs("eightwo", 0, 7);
    WordAtIs("eightwo", 4, 1);
  }

  /** No other position of "eightwo" reads anything. */
  lemma EightwoRest()
    ensures forall k | k in {1, 2, 3, 5, 6} :: Found("eightwo", k) == []
  {
    var l := "eightwo";
    forall k | k in {1, 2, 3, 5}
      ensures Found(l, k) == []
    {
      NoGroup(l, k);
    }
    WordAtNone(l, 6);
  }

  /** What each position of "eightwo" reads. */
  lemma EightwoPieces()
    ensures Contributions("eightwo") == ["8", [], [], [], "2", [], []]
  {
    EightwoWords();
    EightwoRest();
    ContributionsAre("eightwo", Contributions("eightwo"), ["8", [], [], [], "2", [], []]);
  }

  lemma ConcatEightwo()
    ensures Concat(["8", [], [], [], "2", [], []]) == "82"
  {
    var parts: seq<string> := ["8", [], [], [], "2", [], []];
    assert parts[4..] == ["2"] + parts[5..];
    assert Concat(parts[5..]) == [] by {
      ConcatEmpty(parts[5..]);
    }
    assert Concat(parts[1..4]) == [] by {
      ConcatEmpty(parts[1..4]);
    }
    ConcatAppend(parts[..4], parts[4..]);
    ConcatAppend(parts[..1], parts[1..4]);
    assert parts[..4] == parts[..1] + parts[1..4];
    assert parts == parts[..4] + parts[4..];
  }

  /** Overlapping words are both read: "eightwo" gives 8 then 2. */
  lemma OverlappingWords()
    ensures Scan("eightwo") == "82"
    ensures LineValueWords("eightwo") == Ok(82)
  {
    EightwoPieces();
    ConcatEightwo();
    DecimalPair('8', '2');
  }

  /** The sum of the line values; the first line without a digit fails it. */
  function Total(lines: seq<string>, value: string -> Result<nat, CalibrationError>): (r: Result<nat, CalibrationError>)
    ensures r.Ok? <==> forall l | l in lines :: value(l).Ok?
    ensures r.Err? ==> exists l | l in lines :: value(l) == Err(r.error)
  {
    if lines == [] then Ok(0)
    else match value(lines[0])
      case Err(e) => Err(e)
      case Ok(v) =>
        var rest := Total(lines[1..], value);
        assert forall l | l in lines[1..] :: l in lines;
        assert forall l | l in lines :: l == lines[0] || l in lines[1..];
        if rest.Err? then rest else Ok(v + rest.value)
  }

  /** The first part's answer: the sum of the digit-only values. */
  function PartOne(lines: seq<string>): Result<nat, CalibrationError> {
    Total(lines, LineValue)
  }

  /** The second part's answer: the sum of the values with words read. */
  function PartTwo(lines: seq<string>): Result<nat, CalibrationError> {
    Total(lines, LineValueWords)
  }

  /** Appending a line adds its value to the total. */
  lemma {:induction false} TotalAppend(lines: seq<string>, l: string, value: string -> Result<nat, CalibrationError>)
    requires Total(lines, value).Ok? && value(l).Ok?
    ensures Total(lines + [l], value) == Ok(Total(lines, value).value + value(l).value)
    decreases |lines|
  {
    if lines == [] {
      assert [] + [l] == [l];
    } else {
      assert (lines + [l])[1..] == lines[1..] + [l];
      TotalAppend(lines[1..], l, value);
    }
  }
}

/** The handful of Python string operations the puzzle scripts rely on:
    str.isdigit on ASCII digits, str.split on one separator, str.strip,
    and int() on a decimal literal. */
module Text {
  import opened Results

  predicate IsDigit(c: char) {
    '0' <= c <= '9'
  }

  function DigitValue(c: char): (r: nat)
    requires IsDigit(c)
    ensures r < 10 && c == ('0' as int + r) as char
  {
    c as int - '0' as int
  }

  function DigitChar(d: nat): (c: char)
    requires d < 10
    ensures IsDigit(c) && DigitValue(c) == d
  {
    ('0' as int + d) as char
  }

  predicate AllDigits(s: string) {
    forall i | 0 <= i < |s| :: IsDigit(s[i])
  }

  /** The value of a run of decimal digits, most significant first. */
  function Decimal(s: string): (r: nat)
    requires AllDigits(s)
    decreases |s|
  {
    if s == [] then 0 else 10 * Decimal(s[..|s| - 1]) + DigitValue(s[|s| - 1])
  }

  /** The shortest decimal spelling of n. */
  function Show(n: nat): (s: string)
    ensures s != [] && AllDigits(s)
    decreases n
  {
    if n < 10 then [DigitChar(n)] else Show(n / 10) + [DigitChar(n % 10)]
  }

  /** Reading a spelled number gives the number back. */
  lemma {:induction false} DecimalShow(n: nat)
    ensures Decimal(Show(n)) == n
    decreases n
  {
    if n >= 10 {
      DecimalShow(n / 10);
      assert Show(n)[..|Show(n)| - 1] == Show(n / 10);
    }
  }

  /** Two digits read as one number: the first is the tens digit. */
  lemma DecimalPair(a: char, b: char)
    requires IsDigit(a) && IsDigit(b)
    ensures Decimal([a, b]) == 10 * DigitValue(a) + DigitValue(b)
  {
    assert [a, b][..1] == [a];
    assert [a][..0] == [];
    assert Decimal([a]) == DigitValue(a);
  }

  /** Characters str.isspace accepts, which str.strip removes. */
  predicate IsSpace(c: char) {
    || '\t' <= c <= '\r'
    || '\U{1C}' <= c <= ' '
    || c == '\U{85}' || c == '\U{A0}' || c == '\U{1680}'
    || '\U{2000}' <= c <= '\U{200A}'
    || c == '\U{2028}' || c == '\U{2029}' || c == '\U{202F}' || c == '\U{205F}' || c == '\U{3000}'
  }

  /** Python's str.lstrip(). */
  function TrimStart(s: string): (r: string)
    ensures |r| <= |s|
    decreases |s|
  {
    if s != [] && IsSpace(s[0]) then TrimStart(s[1..]) else s
  }

  /** lstrip() keeps a suffix, drops only white space, and stops at the
      first other character. */
  lemma {:induction false} TrimStartSpec(s: string)
    ensures |TrimStart(s)| <= |s| && TrimStart(s) == s[|s| - |TrimStart(s)|..]
    ensures TrimStart(s) == [] || !IsSpace(TrimStart(s)[0])
    ensures forall i | 0 <= i < |s| - |TrimStart(s)| :: IsSpace(s[i])
    decreases |s|
  {
    if s != [] && IsSpace(s[0]) {
      TrimStartSpec(s[1..]);
      forall i | 0 <= i < |s| - |TrimStart(s)| ensures IsSpace(s[i]) {
        if i > 0 {
          assert s[i] == s[1..][i - 1];
        }
      }
    }
  }

  /** Python's str.rstrip(). */
  function TrimEnd(s: string): (r: string)
    ensures |r| <= |s|
    decreases |s|
  {
    if s != [] && IsSpace(s[|s| - 1]) then TrimEnd(s[..|s| - 1]) else s
  }

  /** rstrip() keeps a prefix, drops only white space, and stops at the
      last other character. */
  lemma {:induction false} TrimEndSpec(s: string)
    ensures |TrimEnd(s)| <= |s| && TrimEnd(s) == s[..|TrimEnd(s)|]
    ensures TrimEnd(s) == [] || !IsSpace(TrimEnd(s)[|TrimEnd(s)| - 1])
    ensures forall i | |TrimEnd(s)| <= i < |s| :: IsSpace(s[i])
    decreases |s|
  {
    if s != [] && IsSpace(s[|s| - 1]) {
      TrimEndSpec(s[..|s| - 1]);
      forall i | |TrimEnd(s)| <= i < |s| ensures IsSpace(s[i]) {
        if i < |s| - 1 {
          assert s[i] == s[..|s| - 1][i];
        }
      }
    }
  }

  /** Python's str.strip(): drops leading and trailing white space. */
  function Strip(s: string): string {
    TrimEnd(TrimStart(s))
  }

  /** How many characters strip() removes from the front. */
  function StripOffset(s: string): nat {
    |s| - |TrimStart(s)|
  }

  /** strip() keeps one contiguous slice of its argument. */
  lemma StripSlice(s: string)
    ensures StripOffset(s) + |Strip(s)| <= |s|
    ensures Strip(s) == s[StripOffset(s)..StripOffset(s) + |Strip(s)|]
  {
    var t := TrimStart(s);
    var i := |s| - |t|;
    TrimStartSpec(s);
    TrimEndSpec(t);
    assert Strip(s) == t[..|Strip(s)|];
    assert t[..|Strip(s)|] == s[i..i + |Strip(s)|];
  }

  /** strip() removes only white space behind. */
  lemma StripBack(s: string)
    ensures StripOffset(s) + |Strip(s)| <= |s|
    ensures forall k | StripOffset(s) + |Strip(s)| <= k < |s| :: IsSpace(s[k])
  {
    var t := TrimStart(s);
    var i := |s| - |t|;
    TrimStartSpec(s);
    TrimEndSpec(t);
    forall k | i + |Strip(s)| <= k < |s|
      ensures IsSpace(s[k])
    {
      assert s[k] == t[k - i];
    }
  }

  /** strip() leaves no white space at either end. */
  lemma StripEnds(s: string)
    ensures Strip(s) == [] || (!IsSpace(Strip(s)[0]) && !IsSpace(Strip(s)[|Strip(s)| - 1]))
  {
    var t := TrimStart(s);
    TrimStartSpec(s);
    TrimEndSpec(t);
    if Strip(s) != [] {
      assert Strip(s)[0] == t[0];
    }
  }

  /** Stripping twice is stripping once. */
  lemma StripIdempotent(s: string)
    ensures Strip(Strip(s)) == Strip(s)
  {
    var r := Strip(s);
    StripEnds(s);
    assert TrimStart(r) == r;
    assert TrimEnd(r) == r;
  }

  /** Python's str.split(sep): the pieces between separators, empty pieces
      kept, so there is always one piece more than there are separators. */
  function Split(s: string, sep: char): (r: seq<string>)
    ensures |r| >= 1
    decreases |s|
  {
    if s == [] then [[]]
    else
      var rest := Split(s[1..], sep);
      if s[0] == sep then [[]] + rest else [[s[0]] + rest[0]] + rest[1..]
  }

  /** Python's sep.join(pieces). */
  function Join(pieces: seq<string>, sep: char): string
    requires |pieces| >= 1
    decreases |pieces|
  {
    if |pieces| == 1 then pieces[0] else pieces[0] + [sep] + Join(pieces[1..], sep)
  }

  /** Splitting then joining gives the original string back. */
  lemma {:induction false} JoinSplit(s: string, sep: char)
    ensures Join(Split(s, sep), sep) == s
    decreases |s|
  {
    if s != [] {
      var rest := Split(s[1..], sep);
      JoinSplit(s[1..], sep);
      if s[0] == sep {
        assert Split(s, sep)[1..] == rest;
      } else if |rest| == 1 {
        assert s == [s[0]] + s[1..];
      } else {
        assert Split(s, sep)[1..] == rest[1..];
        assert Join(rest, sep) == rest[0] + [sep] + Join(rest[1..], sep);
        assert s == [s[0]] + s[1..];
      }
    }
  }

  /** Joining pieces that hold no separator, then splitting, gives the
      pieces back. */
  lemma {:induction false} SplitJoin(pieces: seq<string>, sep: char)
    requires |pieces| >= 1 && forall p | p in pieces :: sep !in p
    ensures Split(Join(pieces, sep), sep) == pieces
    decreases |pieces|, |pieces[0]|
  {
    var p := pieces[0];
    if p == [] {
      if |pieces| > 1 {
        assert Join(pieces, sep) == [sep] + Join(pieces[1..], sep);
        SplitJoin(pieces[1..], sep);
        assert Join(pieces, sep)[1..] == Join(pieces[1..], sep);
      }
    } else {
      var shorter := [p[1..]] + pieces[1..];
      assert shorter[0] == p[1..] && shorter[1..] == pieces[1..];
      assert forall q | q in shorter :: sep !in q by {
        assert forall c | c in p[1..] :: c in p;
      }
      SplitJoin(shorter, sep);
      var j := Join(pieces, sep);
      assert j == [p[0]] + Join(shorter, sep) by {
        if |pieces| > 1 {
          assert j == p + [sep] + Join(pieces[1..], sep);
          assert Join(shorter, sep) == p[1..] + [sep] + Join(pieces[1..], sep);
          assert p == [p[0]] + p[1..];
        } else {
          assert p == [p[0]] + p[1..];
        }
      }
      assert j[0] == p[0] && j[1..] == Join(shorter, sep);
      assert p[0] != sep by {
        assert p in pieces && p[0] in p;
      }
      assert Split(j, sep) == [[p[0]] + shorter[0]] + shorter[1..];
      assert [p[0]] + p[1..] == p;
      assert pieces == [p] + pieces[1..];
    }
  }

  /** Joining two pieces puts one separator between them. */
  lemma JoinPair(a: string, b: string, sep: char)
    ensures Join([a, b], sep) == a + [sep] + b
  {
    assert [a, b][1..] == [b];
  }

  /** A join begins with its first piece and ends with its last. */
  lemma JoinEnds(pieces: seq<string>, sep: char)
    requires |pieces| >= 1 && pieces[0] != [] && pieces[|pieces| - 1] != []
    ensures Join(pieces, sep) != [] && Join(pieces, sep)[0] == pieces[0][0]
    ensures Join(pieces, sep)[|Join(pieces, sep)| - 1] == pieces[|pieces| - 1][|pieces[|pieces| - 1]| - 1]
  {
    JoinLast(pieces, sep);
  }

  lemma {:induction false} JoinLast(pieces: seq<string>, sep: char)
    requires |pieces| >= 1 && pieces[|pieces| - 1] != []
    ensures Join(pieces, sep) != []
    ensures Join(pieces, sep)[|Join(pieces, sep)| - 1] == pieces[|pieces| - 1][|pieces[|pieces| - 1]| - 1]
    decreases |pieces|
  {
    if |pieces| > 1 {
      JoinLast(pieces[1..], sep);
    }
  }

  /** A character that is neither the separator nor in any piece is not in
      the joined text. */
  lemma {:induction false} JoinAvoids(pieces: seq<string>, sep: char, x: char)
    requires |pieces| >= 1 && x != sep
    requires forall i | 0 <= i < |pieces| :: x !in pieces[i]
    ensures x !in Join(pieces, sep)
    decreases |pieces|
  {
    if |pieces| > 1 {
      JoinAvoids(pieces[1..], sep, x);
      assert forall i | 0 <= i < |pieces[1..]| :: pieces[1..][i] == pieces[i + 1];
    }
  }

  /** A piece written with one leading blank: a space, then text that
      neither starts nor ends with white space. */
  predicate Spaced(p: string) {
    |p| >= 2 && p[0] == ' ' && !IsSpace(p[1]) && !IsSpace(p[|p| - 1])
  }

  /** strip() drops exactly the leading blank of a spaced piece, and leaves
      the rest alone. */
  lemma StripSpaced(p: string)
    requires Spaced(p)
    ensures Strip(p) == p[1..] && Strip(p[1..]) == p[1..]
  {
    StripKeeps(p[1..]);
    assert TrimStart(p) == TrimStart(p[1..]);
  }

  /** Joining spaced pieces gives a spaced text; without its leading blank
      it is the join of the pieces with the first piece's blank dropped. */
  lemma {:induction false} JoinSpaced(pieces: seq<string>, sep: char)
    requires |pieces| >= 1 && Spaced(pieces[0]) && forall i | 0 <= i < |pieces| :: Spaced(pieces[i])
    ensures Spaced(Join(pieces, sep))
    ensures Join(pieces, sep)[1..] == Join([pieces[0][1..]] + pieces[1..], sep)
    decreases |pieces|
  {
    var rest := [pieces[0][1..]] + pieces[1..];
    assert rest[1..] == pieces[1..];
    if |pieces| > 1 {
      var tail := Join(pieces[1..], sep);
      JoinSpaced(pieces[1..], sep);
      assert Join(pieces, sep) == pieces[0] + [sep] + tail;
      assert Join(pieces, sep)[|Join(pieces, sep)| - 1] == tail[|tail| - 1];
      assert Join(pieces, sep)[1..] == pieces[0][1..] + [sep] + tail;
    }
  }

  /** Stripping a join of spaced pieces and splitting it again at the
      separator gives the pieces back, the first without its blank. */
  lemma SplitSpacedJoin(pieces: seq<string>, sep: char)
    requires |pieces| >= 1 && Spaced(pieces[0])
    requires forall i | 0 <= i < |pieces| :: Spaced(pieces[i]) && sep !in pieces[i]
    ensures Split(Strip(Join(pieces, sep)), sep) == [pieces[0][1..]] + pieces[1..]
  {
    var qs := [pieces[0][1..]] + pieces[1..];
    JoinSpaced(pieces, sep);
    StripSpaced(Join(pieces, sep));
    forall q | q in qs ensures sep !in q {
      var i :| 0 <= i < |qs| && qs[i] == q;
      if i == 0 {
        assert forall k | 0 <= k < |q| :: q[k] == pieces[0][k + 1];
      } else {
        assert q == pieces[i];
      }
    }
    SplitJoin(qs, sep);
  }

  /** Python's s[k:] for k >= 0: empty once k reaches the end. */
  function Suffix(s: string, k: nat): (r: string)
    ensures k <= |s| ==> r == s[k..]
    ensures k >= |s| ==> r == []
  {
    if k >= |s| then [] else s[k..]
  }

  /** The decimal spelling of any integer: a minus sign, then the digits of
      its magnitude, for a negative number. */
  function ShowInt(n: int): string {
    if n < 0 then ['-'] + Show(-n) else Show(n)
  }

  /** The spelling is digits and at most a minus sign, with no white space
      at either end. */
  lemma ShowIntChars(n: int)
    ensures ShowInt(n) != [] && !IsSpace(ShowInt(n)[0]) && !IsSpace(ShowInt(n)[|ShowInt(n)| - 1])
    ensures forall k | 0 <= k < |ShowInt(n)| :: IsDigit(ShowInt(n)[k]) || ShowInt(n)[k] == '-'
  {
    var s := ShowInt(n);
    if n < 0 {
      assert s[|s| - 1] == Show(-n)[|Show(-n)| - 1];
      assert forall k | 1 <= k < |s| :: s[k] == Show(-n)[k - 1];
    }
  }

  /** int() reads back what ShowInt spells. */
  lemma ParseShowInt(n: int)
    ensures ParseInt(ShowInt(n)) == Some(n)
  {
    var s := ShowInt(n);
    if n < 0 {
      var m: nat := -n;
      assert s == ['-'] + Show(m);
      ParseShowNegative(m);
    } else {
      var m: nat := n;
      assert s == Show(m);
      ParseShow(m);
    }
  }

  /** Python's int() on a decimal literal: white space around it, an
      optional sign, then at least one ASCII digit. */
  function ParseInt(s: string): Option<int> {
    ParseSigned(Strip(s))
  }

  function ParseSigned(t: string): Option<int> {
    if t != [] && AllDigits(t) then Some(Decimal(t))
    else if |t| >= 2 && (t[0] == '-' || t[0] == '+') && AllDigits(t[1..]) then
      var v: int := Decimal(t[1..]);
      Some(if t[0] == '-' then -v else v)
    else None
  }

  /** A string with no white space at either end is left as it is. */
  lemma StripKeeps(s: string)
    requires s != [] && !IsSpace(s[0]) && !IsSpace(s[|s| - 1])
    ensures Strip(s) == s
  {
    assert TrimStart(s) == s;
  }

  /** lstrip() drops a white-space prefix in front of another character. */
  lemma {:induction false} TrimStartPrefix(b: string, s: string)
    requires (forall i | 0 <= i < |b| :: IsSpace(b[i])) && s != [] && !IsSpace(s[0])
    ensures TrimStart(b + s) == s
    decreases |b|
  {
    if b == [] {
      assert b + s == s;
    } else {
      assert (b + s)[1..] == b[1..] + s;
      TrimStartPrefix(b[1..], s);
    }
  }

  /** rstrip() drops a white-space suffix behind another character. */
  lemma {:induction false} TrimEndSuffix(s: string, e: string)
    requires (forall i | 0 <= i < |e| :: IsSpace(e[i])) && s != [] && !IsSpace(s[|s| - 1])
    ensures TrimEnd(s + e) == s
    decreases |e|
  {
    if e == [] {
      assert s + e == s;
    } else {
      assert (s + e)[..|s + e| - 1] == s + e[..|e| - 1];
      TrimEndSuffix(s, e[..|e| - 1]);
    }
  }

  /** strip() drops white space around a text that has none at its ends. */
  lemma StripAround(b: string, s: string, e: string)
    requires forall i | 0 <= i < |b| :: IsSpace(b[i])
    requires forall i | 0 <= i < |e| :: IsSpace(e[i])
    requires s != [] && !IsSpace(s[0]) && !IsSpace(s[|s| - 1])
    ensures Strip(b + s + e) == s
  {
    TrimStartPrefix(b, s + e);
    assert b + s + e == b + (s + e);
    TrimEndSuffix(s, e);
  }

  /** strip() drops one trailing blank from a string that has no white
      space at either end. */
  lemma StripTrailing(s: string)
    requires s != [] && !IsSpace(s[0]) && !IsSpace(s[|s| - 1])
    ensures Strip(s + [' ']) == s
  {
    var t := s + [' '];
    assert TrimStart(t) == t;
    assert t[..|t| - 1] == s;
    assert TrimEnd(t) == TrimEnd(s);
  }

  /** A run of digits is read as its value. */
  lemma ParseDigits(s: string, v: nat)
    requires s != [] && AllDigits(s) && Decimal(s) == v
    ensures ParseInt(s) == Some(v as int)
  {
    assert !IsSpace(s[0]) && !IsSpace(s[|s| - 1]);
    StripKeeps(s);
  }

  /** A minus sign and a run of digits are read as the negated value. */
  lemma ParseNegativeDigits(s: string, v: nat)
    requires s != [] && AllDigits(s) && Decimal(s) == v
    ensures ParseInt(['-'] + s) == Some(-(v as int))
  {
    var m := ['-'] + s;
    assert m[0] == '-' && m[|m| - 1] == s[|s| - 1];
    StripKeeps(m);
    SignedMinus(m, s, v);
  }

  /** A minus sign followed by digits is a negative literal. */
  lemma SignedMinus(m: string, s: string, v: nat)
    requires s != [] && AllDigits(s) && Decimal(s) == v && m == ['-'] + s
    ensures ParseSigned(m) == Some(-(v as int))
  {
    assert m[1..] == s;
    assert !IsDigit(m[0]);
  }

  /** int() reads back what Show spells. */
  lemma ParseShow(n: nat)
    ensures ParseInt(Show(n)) == Some(n)
  {
    DecimalShow(n);
    ParseDigits(Show(n), n);
  }

  /** int() reads a minus sign in front of a spelled number as its negation. */
  lemma ParseShowNegative(n: nat)
    ensures ParseInt(['-'] + Show(n)) == Some(-(n as int))
  {
    DecimalShow(n);
    ParseNegativeDigits(Show(n), n);
  }
}

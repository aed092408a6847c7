/** Day 5, first part: the almanac. Seven tables of (destination, source,
    length) entries map a seed to a soil, the soil to a fertilizer, and so
    on down to a location; the answer is the lowest location of any seed.
    The entry lookup here is the one the first part's code performs; the
    half-open lookup the puzzle describes, which the second part's code
    follows, is defined next to it. */
module Almanac {
  import opened Results
  import opened Text

  /** One line of a table: `dst src len`. */
  datatype Entry = Entry(dst: int, src: int, len: int)

  /** Why a line cannot be read: the seed line has no ':', a token is not a
      number, or a table line does not hold exactly three numbers. */
  datatype AlmanacError = NoColon | BadNumber | NotThreeNumbers

  /** The first item the predicate accepts, or None. */
  function Find<T>(items: seq<T>, accept: T -> bool): Option<T>
    decreases |items|
  {
    if items == [] then None
    else if accept(items[0]) then Some(items[0])
    else Find(items[1..], accept)
  }

  /** Find returns the item at the first accepted index. */
  lemma {:induction false} FindFirst<T>(items: seq<T>, accept: T -> bool, k: nat)
    requires k < |items| && accept(items[k])
    requires forall j | 0 <= j < k :: !accept(items[j])
    ensures Find(items, accept) == Some(items[k])
    decreases k
  {
    if k > 0 {
      assert !accept(items[0]);
      FindFirst(items[1..], accept, k - 1);
    }
  }

  /** Find returns None exactly when no item is accepted. */
  lemma {:induction false} FindNone<T>(items: seq<T>, accept: T -> bool)
    ensures Find(items, accept).None? <==> forall j | 0 <= j < |items| :: !accept(items[j])
    decreases |items|
  {
    if items != [] {
      FindNone(items[1..], accept);
      if !accept(items[0]) {
        forall j | 1 <= j < |items| ensures items[j] == items[1..][j - 1] {
        }
      }
    }
  }

  /** What Find returns is accepted and is one of the items. */
  lemma {:induction false} FindSome<T>(items: seq<T>, accept: T -> bool)
    requires Find(items, accept).Some?
    ensures Find(items, accept).value in items && accept(Find(items, accept).value)
    decreases |items|
  {
    if !accept(items[0]) {
      FindSome(items[1..], accept);
    }
  }

  /** The first part's test: the value lies between the source start and
      the source start plus the length, both ends included. */
  predicate Covers(e: Entry, v: int) {
    v >= e.src && v <= e.src + e.len
  }

  /** The first part's lookup: shift the value by the first covering
      entry, or keep it. */
  function FindRange(entries: seq<Entry>, v: int): int {
    match Find(entries, e => Covers(e, v))
    case None => v
    case Some(e) => e.dst + (v - e.src)
  }

  /** The first covering entry in list order decides the value. */
  lemma FindRangeFirst(entries: seq<Entry>, v: int, k: nat)
    requires k < |entries| && Covers(entries[k], v)
    requires forall j | 0 <= j < k :: !Covers(entries[j], v)
    ensures FindRange(entries, v) == entries[k].dst + (v - entries[k].src)
  {
    FindFirst(entries, e => Covers(e, v), k);
  }

  /** A value no entry covers is kept. */
  lemma FindRangeKeeps(entries: seq<Entry>, v: int)
    requires forall j | 0 <= j < |entries| :: !Covers(entries[j], v)
    ensures FindRange(entries, v) == v
  {
    FindNone(entries, e => Covers(e, v));
  }

  /** The puzzle's test: the value lies in the source range, its end
      excluded. */
  predicate InSource(e: Entry, v: int) {
    e.src <= v < e.src + e.len
  }

  /** The lookup with the source range's end excluded: the first entry
      whose source range holds v shifts it, or v is kept. */
  function Lookup(entries: seq<Entry>, v: int): int
    decreases |entries|
  {
    if entries == [] then v
    else if InSource(entries[0], v) then entries[0].dst + (v - entries[0].src)
    else Lookup(entries[1..], v)
  }

  lemma {:induction false} LookupFirst(entries: seq<Entry>, v: int, k: nat)
    requires k < |entries| && InSource(entries[k], v)
    requires forall j | 0 <= j < k :: !InSource(entries[j], v)
    ensures Lookup(entries, v) == entries[k].dst + (v - entries[k].src)
    decreases k
  {
    if k > 0 {
      assert !InSource(entries[0], v);
      LookupFirst(entries[1..], v, k - 1);
    }
  }

  lemma {:induction false} LookupKeeps(entries: seq<Entry>, v: int)
    requires forall j | 0 <= j < |entries| :: !InSource(entries[j], v)
    ensures Lookup(entries, v) == v
    decreases |entries|
  {
    if entries != [] {
      assert !InSource(entries[0], v);
      LookupKeeps(entries[1..], v);
    }
  }

  /** Both lookups agree except at a source range's end: where no entry's
      source ends at v, the inclusive test accepts exactly the entries the
      half-open one does. */
  lemma LookupAgrees(entries: seq<Entry>, v: int)
    requires forall j | 0 <= j < |entries| :: v != entries[j].src + entries[j].len
    ensures FindRange(entries, v) == Lookup(entries, v)
  {
    assert forall j | 0 <= j < |entries| :: Covers(entries[j], v) == InSource(entries[j], v);
    if exists j | 0 <= j < |entries| :: InSource(entries[j], v) {
      var k := FirstIndex(entries, v);
      FindRangeFirst(entries, v, k);
      LookupFirst(entries, v, k);
    } else {
      FindRangeKeeps(entries, v);
      LookupKeeps(entries, v);
    }
  }

  /** The first index whose source range holds v, when one does. */
  function FirstIndex(entries: seq<Entry>, v: int): (k: nat)
    requires exists j | 0 <= j < |entries| :: InSource(entries[j], v)
    ensures k < |entries| && InSource(entries[k], v)
    ensures forall j | 0 <= j < k :: !InSource(entries[j], v)
    decreases |entries|
  {
    if InSource(entries[0], v) then 0
    else
      var j :| 0 <= j < |entries| && InSource(entries[j], v);
      assert InSource(entries[1..][j - 1], v);
      1 + FirstIndex(entries[1..], v)
  }

  /** The value one past an entry's source range: the first part's lookup
      shifts it by that entry, while the puzzle and the second part leave
      it to the next entry or keep it. */
  lemma InclusiveEndDiffers()
    ensures FindRange([Entry(50, 98, 2)], 100) == 52
    ensures Lookup([Entry(50, 98, 2)], 100) == 100
  {
    FindRangeFirst([Entry(50, 98, 2)], 100, 0);
    LookupKeeps([Entry(50, 98, 2)], 100);
  }

  /** The seven lookups in order, each table applied to the previous
      result. */
  function Chain(tables: seq<seq<Entry>>, v: int): int
    decreases |tables|
  {
    if tables == [] then v else Chain(tables[1..], FindRange(tables[0], v))
  }

  /** The lowest value, kept as the loop keeps it: replaced only by a
      strictly lower one. */
  function Lowest(values: seq<int>): Option<int>
    decreases |values|
  {
    if values == [] then None
    else
      match Lowest(values[..|values| - 1])
      case None => Some(values[|values| - 1])
      case Some(b) => if values[|values| - 1] < b then Some(values[|values| - 1]) else Some(b)
  }

  /** Lowest is one of the values and no value is lower; it is None only
      for no values. */
  lemma {:induction false} LowestIsMin(values: seq<int>)
    ensures Lowest(values).None? <==> values == []
    ensures Lowest(values).Some? ==> Lowest(values).value in values
    ensures Lowest(values).Some? ==> forall i | 0 <= i < |values| :: Lowest(values).value <= values[i]
    decreases |values|
  {
    if values != [] {
      var init := values[..|values| - 1];
      LowestIsMin(init);
      assert forall i | 0 <= i < |init| :: init[i] == values[i];
      if Lowest(init).Some? {
        assert Lowest(init).value in values;
      }
    }
  }

  /** The location of every seed. */
  function Locations(tables: seq<seq<Entry>>, seeds: seq<int>): (r: seq<int>)
    ensures |r| == |seeds|
    decreases |seeds|
  {
    if seeds == [] then [] else Locations(tables, seeds[..|seeds| - 1]) + [Chain(tables, seeds[|seeds| - 1])]
  }

  lemma {:induction false} LocationsAt(tables: seq<seq<Entry>>, seeds: seq<int>)
    ensures forall i | 0 <= i < |seeds| :: Locations(tables, seeds)[i] == Chain(tables, seeds[i])
    decreases |seeds|
  {
    if seeds != [] {
      LocationsAt(tables, seeds[..|seeds| - 1]);
    }
  }

  /** The first part's answer: the lowest location over the seeds. */
  function PartOne(tables: seq<seq<Entry>>, seeds: seq<int>): Option<int> {
    Lowest(Locations(tables, seeds))
  }

  /** The answer is the location of some seed, and no seed's location is
      lower; there is none without seeds. */
  lemma PartOneLowest(tables: seq<seq<Entry>>, seeds: seq<int>)
    ensures PartOne(tables, seeds).None? <==> seeds == []
    ensures PartOne(tables, seeds).Some? ==>
      (exists i | 0 <= i < |seeds| :: PartOne(tables, seeds).value == Chain(tables, seeds[i]))
    ensures PartOne(tables, seeds).Some? ==>
      forall i | 0 <= i < |seeds| :: PartOne(tables, seeds).value <= Chain(tables, seeds[i])
  {
    var locs := Locations(tables, seeds);
    LowestIsMin(locs);
    LocationsAt(tables, seeds);
    if seeds != [] {
      var m := PartOne(tables, seeds).value;
      var i :| 0 <= i < |locs| && locs[i] == m;
      assert m == Chain(tables, seeds[i]);
    }
  }

  // Reading the seed line and the table lines.

  function ParseNumber(x: string): Result<int, AlmanacError> {
    match ParseInt(x)
    case None => Err(BadNumber)
    case Some(n) => Ok(n)
  }

  /** The seed line: the text after the first ':', stripped and split at
      ' ', every token read as a number. */
  function ParseSeeds(line: string): Result<seq<int>, AlmanacError> {
    var parts := Split(line, ':');
    if |parts| < 2 then Err(NoColon)
    else Traverse(Split(Strip(parts[1]), ' '), ParseNumber)
  }

  /** A table line: split at ' ', every token read as a number, and exactly
      three of them. */
  function ParseEntry(line: string): Result<Entry, AlmanacError> {
    match Traverse(Split(line, ' '), ParseNumber)
    case Err(e) => Err(e)
    case Ok(vs) => if |vs| != 3 then Err(NotThreeNumbers) else Ok(Entry(vs[0], vs[1], vs[2]))
  }

  /** Numbers spelled out, as int() reads them back. */
  function ShowInts(vs: seq<int>): seq<string>
    decreases |vs|
  {
    if vs == [] then [] else [ShowInt(vs[0])] + ShowInts(vs[1..])
  }

  lemma {:induction false} ShowIntsAt(vs: seq<int>)
    ensures |ShowInts(vs)| == |vs| && forall i | 0 <= i < |vs| :: ShowInts(vs)[i] == ShowInt(vs[i])
    decreases |vs|
  {
    if vs != [] {
      ShowIntsAt(vs[1..]);
    }
  }

  /** Numbers joined by single blanks split back into their spellings, and
      those read back as the numbers. */
  lemma ReadShowInts(vs: seq<int>)
    requires vs != []
    ensures Split(Join(ShowInts(vs), ' '), ' ') == ShowInts(vs)
    ensures Traverse(ShowInts(vs), ParseNumber) == Ok(vs)
  {
    var ps := ShowInts(vs);
    ShowIntsAt(vs);
    forall p | p in ps ensures ' ' !in p {
      var i :| 0 <= i < |ps| && ps[i] == p;
      ShowIntChars(vs[i]);
    }
    SplitJoin(ps, ' ');
    forall i | 0 <= i < |ps| ensures ParseNumber(ps[i]) == Ok(vs[i]) {
      ParseShowInt(vs[i]);
    }
    TraverseOk(ps, ParseNumber, vs);
  }

  /** A table line written as three numbers reads back as its entry. */
  lemma ParseEntryText(e: Entry)
    ensures ParseEntry(Join(ShowInts([e.dst, e.src, e.len]), ' ')) == Ok(e)
  {
    ReadShowInts([e.dst, e.src, e.len]);
  }

  /** A seed line `seeds: 79 14 55 13` reads back as its numbers. */
  lemma ParseSeedsText(vs: seq<int>)
    requires vs != []
    ensures ParseSeeds("seeds: " + Join(ShowInts(vs), ' ')) == Ok(vs)
  {
    var body := Join(ShowInts(vs), ' ');
    var line := "seeds: " + body;
    ShowIntsAt(vs);
    assert Split(line, ':') == ["seeds", " " + body] by {
      forall i | 0 <= i < |ShowInts(vs)| ensures ':' !in ShowInts(vs)[i] {
        ShowIntChars(vs[i]);
      }
      JoinAvoids(ShowInts(vs), ' ', ':');
      assert line == "seeds" + [':'] + (" " + body);
      JoinPair("seeds", " " + body, ':');
      SplitJoin(["seeds", " " + body], ':');
    }
    assert Strip(" " + body) == body by {
      JoinEndsShown(vs);
      StripSpaced(" " + body);
      assert (" " + body)[1..] == body;
    }
    ReadShowInts(vs);
  }

  /** Numbers joined by blanks begin and end with no white space. */
  lemma JoinEndsShown(vs: seq<int>)
    requires vs != []
    ensures Spaced(" " + Join(ShowInts(vs), ' '))
  {
    var ps := ShowInts(vs);
    var body := Join(ps, ' ');
    ShowIntsAt(vs);
    ShowIntChars(vs[0]);
    ShowIntChars(vs[|vs| - 1]);
    JoinEnds(ps, ' ');
    assert (" " + body)[1] == body[0];
  }
}

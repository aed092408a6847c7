/** Day 5, second part: the seeds come as ranges, and each table maps a
    whole range at once. A range is cut where the table's source ranges
    begin and end; the pieces a source range covers are shifted to its
    destination, the gaps between them are kept. The answer is the lowest
    beginning of any range after the seventh table. */
module AlmanacRanges {
  import opened Results
  import opened Almanac

  /** The integers from begin up to, not including, end. */
  datatype Range = Range(begin: int, end: int)

  function Size(r: Range): int {
    r.end - r.begin
  }

  predicate In(x: int, r: Range) {
    r.begin <= x < r.end
  }

  function Max(a: int, b: int): int {
    if a >= b then a else b
  }

  function Min(a: int, b: int): int {
    if a <= b then a else b
  }

  /** The common part of two ranges, or None when it is empty. */
  function Intersect(a: Range, b: Range): Option<Range> {
    var begin := Max(a.begin, b.begin);
    var end := Min(a.end, b.end);
    if begin >= end then None else Some(Range(begin, end))
  }

  /** The intersection is non-empty, lies in both ranges, and holds
      exactly the points both ranges hold. */
  lemma IntersectPoints(a: Range, b: Range, x: int)
    ensures Intersect(a, b).None? <==> Max(a.begin, b.begin) >= Min(a.end, b.end)
    ensures Intersect(a, b).Some? ==>
      var r := Intersect(a, b).value;
      r.begin < r.end && a.begin <= r.begin && r.end <= a.end && b.begin <= r.begin && r.end <= b.end
    ensures In(x, a) && In(x, b) <==> Intersect(a, b).Some? && In(x, Intersect(a, b).value)
  {
  }

  /** The order of the two ranges does not matter. */
  lemma IntersectSymmetric(a: Range, b: Range)
    ensures Intersect(a, b) == Intersect(b, a)
  {
  }

  /** A range that meets another is not empty. */
  lemma IntersectNonEmpty(a: Range, b: Range)
    requires Intersect(a, b).Some?
    ensures a.begin < a.end && b.begin < b.end
  {
  }

  /** An entry's source and destination ranges. */
  function Src(e: Entry): Range {
    Range(e.src, e.src + e.len)
  }

  function Dst(e: Entry): Range {
    Range(e.dst, e.dst + e.len)
  }

  /** Both ranges have the entry's length, and the source range holds what
      the half-open lookup accepts. */
  lemma EntryRanges(e: Entry, x: int)
    ensures Size(Src(e)) == e.len && Size(Dst(e)) == e.len
    ensures In(x, Src(e)) <==> InSource(e, x)
  {
  }

  /** The entries whose source range meets the query, in order: the
      filter the code builds its queue from. */
  function Hits(entries: seq<Entry>, q: Range): seq<Entry>
    decreases |entries|
  {
    if entries == [] then []
    else (if Intersect(q, Src(entries[0])).Some? then [entries[0]] else []) + Hits(entries[1..], q)
  }

  /** Every entry kept meets the query and comes from the table. */
  lemma {:induction false} HitsMembers(entries: seq<Entry>, q: Range)
    ensures forall h | h in Hits(entries, q) :: h in entries && Intersect(Src(h), q).Some?
    decreases |entries|
  {
    if entries != [] {
      HitsMembers(entries[1..], q);
      IntersectSymmetric(q, Src(entries[0]));
    }
  }

  /** The queue loop from a given left edge: before each entry's part of
      the query comes the gap since the edge, if any, then the entry's part
      shifted to its destination; after the last entry, the rest of the
      query. */
  function MapFrom(hits: seq<Entry>, q: Range, edge: int): seq<Range>
    requires forall h | h in hits :: Intersect(Src(h), q).Some?
    decreases |hits|
  {
    if hits == [] then (if edge != q.end then [Range(edge, q.end)] else [])
    else
      var e := hits[0];
      var i := Intersect(Src(e), q).value;
      var offset := i.begin - Src(e).begin;
      var gap := if i.begin != edge then [Range(edge, i.begin)] else [];
      gap + [Range(Dst(e).begin + offset, Dst(e).begin + offset + Size(i))] + MapFrom(hits[1..], q, i.end)
  }

  /** The offset into an entry's source range is never negative: the
      code's assertion always holds. */
  lemma OffsetNonNegative(e: Entry, q: Range)
    requires Intersect(Src(e), q).Some?
    ensures Intersect(Src(e), q).value.begin - Src(e).begin >= 0
  {
  }

  /** compute_mapping: the pieces of the query after one table. A query no
      source range meets is returned alone. */
  function ComputeMapping(entries: seq<Entry>, q: Range): seq<Range> {
    var hits := Hits(entries, q);
    HitsMembers(entries, q);
    var segments := if hits == [] then [] else MapFrom(hits, q, q.begin);
    if segments == [] then [q] else segments
  }

  /** A query no source range meets maps to itself alone. */
  lemma {:induction false} MappingMisses(entries: seq<Entry>, q: Range)
    requires forall j | 0 <= j < |entries| :: Intersect(q, Src(entries[j])).None?
    ensures ComputeMapping(entries, q) == [q]
  {
    HitsNone(entries, q);
  }

  lemma {:induction false} HitsNone(entries: seq<Entry>, q: Range)
    requires forall j | 0 <= j < |entries| :: Intersect(q, Src(entries[j])).None?
    ensures Hits(entries, q) == []
    decreases |entries|
  {
    if entries != [] {
      assert Intersect(q, Src(entries[0])).None?;
      HitsNone(entries[1..], q);
    }
  }

  // What the pieces hold.

  /** The points of a range. */
  function Points(r: Range): set<int> {
    set x | r.begin <= x < r.end && In(x, r)
  }

  /** The points of a list of ranges. */
  function Covered(segs: seq<Range>): set<int>
    decreases |segs|
  {
    if segs == [] then {} else Points(segs[0]) + Covered(segs[1..])
  }

  /** Where the half-open lookup sends a set of points. */
  function MapSet(entries: seq<Entry>, xs: set<int>): set<int> {
    set x | x in xs :: Lookup(entries, x)
  }

  /** Where the lookup sends the points from lo up to hi. */
  function Image(entries: seq<Entry>, lo: int, hi: int): set<int> {
    MapSet(entries, Points(Range(lo, hi)))
  }

  lemma {:induction false} CoveredAppend(a: seq<Range>, b: seq<Range>)
    ensures Covered(a + b) == Covered(a) + Covered(b)
    decreases |a|
  {
    if a == [] {
      assert a + b == b;
    } else {
      CoveredAppend(a[1..], b);
      assert (a + b)[0] == a[0];
      assert (a + b)[1..] == a[1..] + b;
    }
  }

  lemma MapSetUnion(entries: seq<Entry>, xs: set<int>, ys: set<int>)
    ensures MapSet(entries, xs + ys) == MapSet(entries, xs) + MapSet(entries, ys)
  {
  }

  /** Cutting the points at m cuts their image. */
  lemma ImageSplit(entries: seq<Entry>, lo: int, m: int, hi: int)
    requires lo <= m <= hi
    ensures Image(entries, lo, hi) == Image(entries, lo, m) + Image(entries, m, hi)
  {
    assert Points(Range(lo, hi)) == Points(Range(lo, m)) + Points(Range(m, hi));
    MapSetUnion(entries, Points(Range(lo, m)), Points(Range(m, hi)));
  }

  /** Points the lookup keeps are their own image. */
  lemma ImageKeeps(entries: seq<Entry>, lo: int, hi: int)
    requires forall x | lo <= x < hi :: Lookup(entries, x) == x
    ensures Image(entries, lo, hi) == Points(Range(lo, hi))
  {
    forall y | y in Points(Range(lo, hi)) ensures y in Image(entries, lo, hi) {
      assert Lookup(entries, y) == y;
    }
  }

  /** Points the lookup shifts by d have the shifted range as image. */
  lemma ImageShifts(entries: seq<Entry>, lo: int, hi: int, d: int)
    requires forall x | lo <= x < hi :: Lookup(entries, x) == x + d
    ensures Image(entries, lo, hi) == Points(Range(lo + d, hi + d))
  {
    forall y | y in Points(Range(lo + d, hi + d)) ensures y in Image(entries, lo, hi) {
      assert Lookup(entries, y - d) == y;
    }
  }

  /** Points the first entry does not hold are looked up in the rest. */
  lemma ImageSkips(entries: seq<Entry>, lo: int, hi: int)
    requires entries != [] && forall x | lo <= x < hi :: !InSource(entries[0], x)
    ensures Image(entries, lo, hi) == Image(entries[1..], lo, hi)
  {
    forall x | lo <= x < hi ensures Lookup(entries, x) == Lookup(entries[1..], x) {
      assert !InSource(entries[0], x);
    }
    assert Image(entries, lo, hi) == Image(entries[1..], lo, hi);
  }

  /** The source ranges of the kept entries follow one another. */
  predicate Chained(hits: seq<Entry>) {
    forall i, j | 0 <= i < j < |hits| :: hits[i].src + hits[i].len <= hits[j].src
  }

  /** The loop's state before an entry: the edge lies in the query and at
      or before where the next entry's part begins. */
  predicate EdgeReady(hits: seq<Entry>, q: Range, edge: int)
    requires forall h | h in hits :: Intersect(Src(h), q).Some?
  {
    && q.begin <= edge <= q.end
    && (hits != [] ==> edge <= Intersect(Src(hits[0]), q).value.begin)
  }

  /** Before the first entry's part, no entry holds a point: the lookup
      keeps the gap. */
  lemma HeadGap(hits: seq<Entry>, q: Range, edge: int, i: Range)
    requires hits != [] && Chained(hits) && forall h | h in hits :: Intersect(Src(h), q).Some?
    requires Intersect(Src(hits[0]), q) == Some(i) && q.begin <= edge <= i.begin
    ensures Image(hits, edge, i.begin) == Points(Range(edge, i.begin))
  {
    forall x | edge <= x < i.begin ensures Lookup(hits, x) == x {
      forall j | 0 <= j < |hits| ensures !InSource(hits[j], x) {
        if j > 0 {
          assert hits[0].src + hits[0].len <= hits[j].src;
          IntersectNonEmpty(Src(hits[0]), q);
        }
      }
      LookupKeeps(hits, x);
    }
    ImageKeeps(hits, edge, i.begin);
  }

  /** The first entry's part is shifted by the entry's offset. */
  lemma HeadShift(hits: seq<Entry>, q: Range, i: Range)
    requires hits != [] && Intersect(Src(hits[0]), q) == Some(i)
    ensures Image(hits, i.begin, i.end) == Points(Range(i.begin + (hits[0].dst - hits[0].src), i.end + (hits[0].dst - hits[0].src)))
  {
    forall x | i.begin <= x < i.end ensures Lookup(hits, x) == x + (hits[0].dst - hits[0].src) {
      assert InSource(hits[0], x);
    }
    ImageShifts(hits, i.begin, i.end, hits[0].dst - hits[0].src);
  }

  /** After the first entry's part, the first entry holds no point. */
  lemma HeadRest(hits: seq<Entry>, q: Range, i: Range)
    requires hits != [] && Intersect(Src(hits[0]), q) == Some(i)
    ensures Image(hits, i.end, q.end) == Image(hits[1..], i.end, q.end)
  {
    ImageSkips(hits, i.end, q.end);
  }

  /** The rest of the kept entries still follow one another and begin at
      or after the first entry's part ends. */
  lemma RestReady(hits: seq<Entry>, q: Range, i: Range)
    requires hits != [] && Chained(hits) && forall h | h in hits :: Intersect(Src(h), q).Some?
    requires Intersect(Src(hits[0]), q) == Some(i)
    ensures Chained(hits[1..]) && forall h | h in hits[1..] :: Intersect(Src(h), q).Some?
    ensures EdgeReady(hits[1..], q, i.end)
  {
    var rest := hits[1..];
    forall a, b | 0 <= a < b < |rest| ensures rest[a].src + rest[a].len <= rest[b].src {
      assert rest[a] == hits[a + 1] && rest[b] == hits[b + 1];
    }
    forall h | h in rest ensures Intersect(Src(h), q).Some? {
      assert h in hits;
    }
    if rest != [] {
      assert hits[0].src + hits[0].len <= hits[1].src;
    }
  }

  /** A gap, if any, then a mapped piece, then the rest: their points. */
  lemma CoveredThree(lo: int, hi: int, mapped: Range, tail: seq<Range>)
    requires lo <= hi
    ensures Covered((if hi != lo then [Range(lo, hi)] else []) + [mapped] + tail)
         == Points(Range(lo, hi)) + Points(mapped) + Covered(tail)
  {
    var gap := if hi != lo then [Range(lo, hi)] else [];
    CoveredAppend(gap + [mapped], tail);
    CoveredAppend(gap, [mapped]);
    assert Covered([mapped]) == Points(mapped);
    assert Covered(gap) == Points(Range(lo, hi));
  }

  /** The image of the query from the edge on, cut where the first entry's
      part begins and ends. */
  lemma ImageHead(hits: seq<Entry>, q: Range, edge: int, i: Range)
    requires hits != [] && Chained(hits) && forall h | h in hits :: Intersect(Src(h), q).Some?
    requires Intersect(Src(hits[0]), q) == Some(i) && q.begin <= edge <= i.begin
    ensures Image(hits, edge, q.end)
         == Points(Range(edge, i.begin))
          + Points(Range(i.begin + (hits[0].dst - hits[0].src), i.end + (hits[0].dst - hits[0].src)))
          + Image(hits[1..], i.end, q.end)
  {
    HeadGap(hits, q, edge, i);
    HeadShift(hits, q, i);
    HeadRest(hits, q, i);
    ImageSplit(hits, edge, i.begin, q.end);
    ImageSplit(hits, i.begin, i.end, q.end);
  }

  /** One turn of the queue loop. */
  lemma MapFromHead(hits: seq<Entry>, q: Range, edge: int, i: Range)
    requires hits != [] && forall h | h in hits :: Intersect(Src(h), q).Some?
    requires Intersect(Src(hits[0]), q) == Some(i)
    ensures forall h | h in hits[1..] :: Intersect(Src(h), q).Some?
    ensures MapFrom(hits, q, edge)
         == (if i.begin != edge then [Range(edge, i.begin)] else [])
          + [Range(i.begin + (hits[0].dst - hits[0].src), i.end + (hits[0].dst - hits[0].src))]
          + MapFrom(hits[1..], q, i.end)
  {
    forall h | h in hits[1..] ensures Intersect(Src(h), q).Some? {
      assert h in hits;
    }
  }

  /** The pieces from the edge on hold exactly the image of the query from
      the edge on. */
  lemma {:induction false} MapFromImage(hits: seq<Entry>, q: Range, edge: int)
    requires Chained(hits) && forall h | h in hits :: Intersect(Src(h), q).Some?
    requires EdgeReady(hits, q, edge)
    ensures Covered(MapFrom(hits, q, edge)) == Image(hits, edge, q.end)
    decreases |hits|
  {
    if hits == [] {
      LookupKeepsAll(edge, q.end);
      ImageKeeps(hits, edge, q.end);
    } else {
      var e := hits[0];
      var i := Intersect(Src(e), q).value;
      var d := e.dst - e.src;
      RestReady(hits, q, i);
      MapFromHead(hits, q, edge, i);
      MapFromImage(hits[1..], q, i.end);
      CoveredThree(edge, i.begin, Range(i.begin + d, i.end + d), MapFrom(hits[1..], q, i.end));
      ImageHead(hits, q, edge, i);
    }
  }

  /** With no entries, every point is kept. */
  lemma LookupKeepsAll(lo: int, hi: int)
    ensures forall x | lo <= x < hi :: Lookup([], x) == x
  {
  }

  /** A table sorted by source start. */
  predicate Sorted(entries: seq<Entry>) {
    forall i, j | 0 <= i < j < |entries| :: entries[i].src <= entries[j].src
  }

  /** A table whose source ranges do not overlap. */
  predicate Disjoint(entries: seq<Entry>) {
    forall i, j | 0 <= i < j < |entries| :: Intersect(Src(entries[i]), Src(entries[j])).None?
  }

  /** Of a sorted table without overlaps, the entries that meet a query
      follow one another. */
  lemma {:induction false} HitsChained(entries: seq<Entry>, q: Range)
    requires Sorted(entries) && Disjoint(entries)
    ensures Chained(Hits(entries, q))
    decreases |entries|
  {
    if entries != [] {
      var rest := entries[1..];
      assert Sorted(rest) && Disjoint(rest) by {
        forall a, b | 0 <= a < b < |rest|
          ensures rest[a].src <= rest[b].src && Intersect(Src(rest[a]), Src(rest[b])).None?
        {
          assert rest[a] == entries[a + 1] && rest[b] == entries[b + 1];
        }
      }
      HitsChained(rest, q);
      var e := entries[0];
      var hs := Hits(rest, q);
      if Intersect(q, Src(e)).Some? {
        HitsMembers(rest, q);
        forall h | h in hs ensures e.src + e.len <= h.src {
          var k :| 0 <= k < |rest| && rest[k] == h;
          assert entries[k + 1] == h;
          IntersectNonEmpty(q, Src(e));
          IntersectNonEmpty(Src(h), q);
          assert Intersect(Src(e), Src(h)).None?;
        }
        ChainedCons(e, hs);
      }
    }
  }

  lemma ChainedCons(e: Entry, hs: seq<Entry>)
    requires Chained(hs) && forall h | h in hs :: e.src + e.len <= h.src
    ensures Chained([e] + hs)
  {
    var all := [e] + hs;
    forall a, b | 0 <= a < b < |all| ensures all[a].src + all[a].len <= all[b].src {
      assert all[b] == hs[b - 1];
      if a > 0 {
        assert all[a] == hs[a - 1];
      }
    }
  }

  /** For a point of the query, looking it up among the entries that meet
      the query is looking it up in the whole table. */
  lemma {:induction false} LookupHits(entries: seq<Entry>, q: Range, x: int)
    requires In(x, q)
    ensures Lookup(entries, x) == Lookup(Hits(entries, q), x)
    decreases |entries|
  {
    if entries != [] {
      var e := entries[0];
      IntersectPoints(q, Src(e), x);
      LookupHits(entries[1..], q, x);
      var hs := Hits(entries[1..], q);
      if Intersect(q, Src(e)).Some? {
        assert Hits(entries, q) == [e] + hs;
        assert ([e] + hs)[1..] == hs;
      } else {
        assert Hits(entries, q) == hs;
      }
    }
  }

  /** compute_mapping on a sorted table without overlaps: the pieces hold
      exactly the points the half-open lookup sends the query to. */
  lemma ComputeMappingImage(entries: seq<Entry>, q: Range)
    requires Sorted(entries) && Disjoint(entries)
    ensures Covered(ComputeMapping(entries, q)) == Image(entries, q.begin, q.end)
  {
    var hits := Hits(entries, q);
    HitsMembers(entries, q);
    forall x | q.begin <= x < q.end ensures Lookup(entries, x) == Lookup(hits, x) {
      LookupHits(entries, q, x);
    }
    assert Image(entries, q.begin, q.end) == Image(hits, q.begin, q.end);
    if hits == [] {
      LookupKeepsAll(q.begin, q.end);
      ImageKeeps(hits, q.begin, q.end);
      assert Covered([q]) == Points(q);
    } else {
      IntersectNonEmpty(Src(hits[0]), q);
      HitsChained(entries, q);
      MapFromImage(hits, q, q.begin);
    }
  }

  // The pieces partition the query.

  function SizeSum(segs: seq<Range>): int
    decreases |segs|
  {
    if segs == [] then 0 else Size(segs[0]) + SizeSum(segs[1..])
  }

  /** Every piece holds at least one point. */
  predicate AllNonEmpty(segs: seq<Range>) {
    forall k | 0 <= k < |segs| :: segs[k].begin < segs[k].end
  }

  lemma {:induction false} SizeSumAppend(a: seq<Range>, b: seq<Range>)
    ensures SizeSum(a + b) == SizeSum(a) + SizeSum(b)
    decreases |a|
  {
    if a == [] {
      assert a + b == b;
    } else {
      SizeSumAppend(a[1..], b);
      assert (a + b)[0] == a[0];
      assert (a + b)[1..] == a[1..] + b;
    }
  }

  lemma AllNonEmptyAppend(a: seq<Range>, b: seq<Range>)
    requires AllNonEmpty(a) && AllNonEmpty(b)
    ensures AllNonEmpty(a + b)
  {
    forall k | 0 <= k < |a + b| ensures (a + b)[k].begin < (a + b)[k].end {
      if k >= |a| {
        assert (a + b)[k] == b[k - |a|];
      }
    }
  }

  /** A gap, if any, then a mapped piece, then the rest: their sizes. */
  lemma SizesThree(lo: int, hi: int, mapped: Range, tail: seq<Range>)
    requires lo <= hi && mapped.begin < mapped.end && AllNonEmpty(tail)
    ensures SizeSum((if hi != lo then [Range(lo, hi)] else []) + [mapped] + tail)
         == (hi - lo) + Size(mapped) + SizeSum(tail)
    ensures AllNonEmpty((if hi != lo then [Range(lo, hi)] else []) + [mapped] + tail)
  {
    var gap := if hi != lo then [Range(lo, hi)] else [];
    SizeSumAppend(gap + [mapped], tail);
    SizeSumAppend(gap, [mapped]);
    AllNonEmptyAppend(gap, [mapped]);
    AllNonEmptyAppend(gap + [mapped], tail);
  }

  /** From the edge on, the loop's pieces are non-empty and their sizes
      add up to what is left of the query. */
  lemma {:induction false} MapFromPieces(hits: seq<Entry>, q: Range, edge: int)
    requires Chained(hits) && forall h | h in hits :: Intersect(Src(h), q).Some?
    requires EdgeReady(hits, q, edge)
    ensures SizeSum(MapFrom(hits, q, edge)) == q.end - edge
    ensures AllNonEmpty(MapFrom(hits, q, edge))
    ensures hits != [] ==> MapFrom(hits, q, edge) != []
    decreases |hits|
  {
    if hits != [] {
      var e := hits[0];
      var i := Intersect(Src(e), q).value;
      var d := e.dst - e.src;
      IntersectPoints(Src(e), q, edge);
      RestReady(hits, q, i);
      MapFromHead(hits, q, edge, i);
      MapFromPieces(hits[1..], q, i.end);
      SizesThree(edge, i.begin, Range(i.begin + d, i.end + d), MapFrom(hits[1..], q, i.end));
    }
  }

  /** compute_mapping cuts the query into pieces whose sizes add up to the
      query's size; a non-empty query gives non-empty pieces, and there is
      always at least one piece. */
  lemma ComputeMappingPieces(entries: seq<Entry>, q: Range)
    requires Sorted(entries) && Disjoint(entries)
    ensures ComputeMapping(entries, q) != []
    ensures SizeSum(ComputeMapping(entries, q)) == Size(q)
    ensures q.begin < q.end ==> AllNonEmpty(ComputeMapping(entries, q))
  {
    var hits := Hits(entries, q);
    HitsMembers(entries, q);
    if hits == [] {
      assert SizeSum([q]) == Size(q);
    } else {
      IntersectNonEmpty(Src(hits[0]), q);
      HitsChained(entries, q);
      MapFromPieces(hits, q, q.begin);
    }
  }

  // The seven tables, one after another.

  /** One table applied to every piece, the pieces of each kept together
      in order. */
  function Stage(entries: seq<Entry>, segs: seq<Range>): seq<Range>
    decreases |segs|
  {
    if segs == [] then [] else ComputeMapping(entries, segs[0]) + Stage(entries, segs[1..])
  }

  /** The nested loops: every table in turn applied to every piece the
      previous table gave. */
  function Pipeline(tables: seq<seq<Entry>>, segs: seq<Range>): seq<Range>
    decreases |tables|
  {
    if tables == [] then segs else Pipeline(tables[1..], Stage(tables[0], segs))
  }

  /** The half-open lookup through every table in turn. */
  function ChainLookup(tables: seq<seq<Entry>>, x: int): int
    decreases |tables|
  {
    if tables == [] then x else ChainLookup(tables[1..], Lookup(tables[0], x))
  }

  /** Where the tables send a set of points. */
  function ChainSet(tables: seq<seq<Entry>>, xs: set<int>): set<int> {
    set x | x in xs :: ChainLookup(tables, x)
  }

  /** Every table is sorted and free of overlaps. */
  predicate WellFormed(tables: seq<seq<Entry>>) {
    forall t | 0 <= t < |tables| :: Sorted(tables[t]) && Disjoint(tables[t])
  }

  /** A stage holds the image of the points it was given. */
  lemma {:induction false} StageImage(entries: seq<Entry>, segs: seq<Range>)
    requires Sorted(entries) && Disjoint(entries)
    ensures Covered(Stage(entries, segs)) == MapSet(entries, Covered(segs))
    decreases |segs|
  {
    if segs != [] {
      StageImage(entries, segs[1..]);
      ComputeMappingImage(entries, segs[0]);
      CoveredAppend(ComputeMapping(entries, segs[0]), Stage(entries, segs[1..]));
      MapSetUnion(entries, Points(segs[0]), Covered(segs[1..]));
    }
  }

  /** A stage keeps non-empty pieces non-empty and gives some piece for
      every piece it was given. */
  lemma {:induction false} StagePieces(entries: seq<Entry>, segs: seq<Range>)
    requires Sorted(entries) && Disjoint(entries) && AllNonEmpty(segs)
    ensures AllNonEmpty(Stage(entries, segs))
    ensures segs != [] ==> Stage(entries, segs) != []
    decreases |segs|
  {
    if segs != [] {
      assert AllNonEmpty(segs[1..]) by {
        forall k | 0 <= k < |segs[1..]| ensures segs[1..][k].begin < segs[1..][k].end {
          assert segs[1..][k] == segs[k + 1];
        }
      }
      StagePieces(entries, segs[1..]);
      ComputeMappingPieces(entries, segs[0]);
      AllNonEmptyAppend(ComputeMapping(entries, segs[0]), Stage(entries, segs[1..]));
    }
  }

  /** Looking points up through the tables is looking up their image under
      the first table through the rest. */
  lemma ChainSetStep(tables: seq<seq<Entry>>, xs: set<int>)
    requires tables != []
    ensures ChainSet(tables, xs) == ChainSet(tables[1..], MapSet(tables[0], xs))
  {
    forall y | y in ChainSet(tables[1..], MapSet(tables[0], xs)) ensures y in ChainSet(tables, xs) {
      var z :| z in MapSet(tables[0], xs) && y == ChainLookup(tables[1..], z);
      var x :| x in xs && z == Lookup(tables[0], x);
      assert y == ChainLookup(tables, x);
    }
    forall y | y in ChainSet(tables, xs) ensures y in ChainSet(tables[1..], MapSet(tables[0], xs)) {
      var x :| x in xs && y == ChainLookup(tables, x);
      assert Lookup(tables[0], x) in MapSet(tables[0], xs);
    }
  }

  /** No table sends every point to itself. */
  lemma ChainSetNone(tables: seq<seq<Entry>>, xs: set<int>)
    requires tables == []
    ensures ChainSet(tables, xs) == xs
  {
    forall x | x in xs ensures x in ChainSet(tables, xs) {
      assert ChainLookup(tables, x) == x;
    }
  }

  /** After every table, the pieces hold exactly the points the tables send
      the seeds to. */
  lemma {:induction false} PipelineImage(tables: seq<seq<Entry>>, segs: seq<Range>)
    requires WellFormed(tables)
    ensures Covered(Pipeline(tables, segs)) == ChainSet(tables, Covered(segs))
    decreases |tables|
  {
    if tables == [] {
      ChainSetNone(tables, Covered(segs));
    } else {
      assert WellFormed(tables[1..]) by {
        forall t | 0 <= t < |tables[1..]| ensures Sorted(tables[1..][t]) && Disjoint(tables[1..][t]) {
          assert tables[1..][t] == tables[t + 1];
        }
      }
      assert Sorted(tables[0]) && Disjoint(tables[0]);
      StageImage(tables[0], segs);
      PipelineImage(tables[1..], Stage(tables[0], segs));
      ChainSetStep(tables, Covered(segs));
    }
  }

  /** After every table, non-empty seed ranges give non-empty pieces, and
      at least one. */
  lemma {:induction false} PipelinePieces(tables: seq<seq<Entry>>, segs: seq<Range>)
    requires WellFormed(tables) && AllNonEmpty(segs)
    ensures AllNonEmpty(Pipeline(tables, segs))
    ensures segs != [] ==> Pipeline(tables, segs) != []
    decreases |tables|
  {
    if tables != [] {
      assert WellFormed(tables[1..]) by {
        forall t | 0 <= t < |tables[1..]| ensures Sorted(tables[1..][t]) && Disjoint(tables[1..][t]) {
          assert tables[1..][t] == tables[t + 1];
        }
      }
      assert Sorted(tables[0]) && Disjoint(tables[0]);
      StagePieces(tables[0], segs);
      PipelinePieces(tables[1..], Stage(tables[0], segs));
    }
  }

  // The answer.

  function Begins(segs: seq<Range>): (r: seq<int>)
    ensures |r| == |segs|
    decreases |segs|
  {
    if segs == [] then [] else [segs[0].begin] + Begins(segs[1..])
  }

  lemma {:induction false} BeginsAt(segs: seq<Range>)
    ensures forall k | 0 <= k < |segs| :: Begins(segs)[k] == segs[k].begin
    decreases |segs|
  {
    if segs != [] {
      BeginsAt(segs[1..]);
    }
  }

  /** A point is covered exactly when some piece holds it. */
  lemma {:induction false} CoveredMembers(segs: seq<Range>, y: int)
    ensures y in Covered(segs) <==> exists k | 0 <= k < |segs| :: In(y, segs[k])
    decreases |segs|
  {
    if segs != [] {
      CoveredMembers(segs[1..], y);
      if y in Covered(segs[1..]) {
        var k :| 0 <= k < |segs[1..]| && In(y, segs[1..][k]);
        assert In(y, segs[k + 1]);
      }
      if exists k | 0 <= k < |segs| :: In(y, segs[k]) {
        var k :| 0 <= k < |segs| && In(y, segs[k]);
        if k > 0 {
          assert In(y, segs[1..][k - 1]);
        }
      }
    }
  }

  /** The lowest beginning of non-empty pieces is the lowest point they
      hold. */
  lemma LowestBegin(segs: seq<Range>)
    requires segs != [] && AllNonEmpty(segs)
    ensures Lowest(Begins(segs)).Some?
    ensures Lowest(Begins(segs)).value in Covered(segs)
    ensures forall y | y in Covered(segs) :: Lowest(Begins(segs)).value <= y
  {
    var bs := Begins(segs);
    LowestIsMin(bs);
    BeginsAt(segs);
    var m := Lowest(bs).value;
    var k :| 0 <= k < |bs| && bs[k] == m;
    CoveredMembers(segs, m);
    assert In(m, segs[k]);
    forall y | y in Covered(segs) ensures m <= y {
      CoveredMembers(segs, y);
      var j :| 0 <= j < |segs| && In(y, segs[j]);
      assert m <= bs[j];
    }
  }

  /** The second part: the lowest beginning of any piece after every
      table. */
  function PartTwo(tables: seq<seq<Entry>>, seeds: seq<Range>): Option<int> {
    Lowest(Begins(Pipeline(tables, seeds)))
  }

  /** With sorted tables free of overlaps and non-empty seed ranges, the
      answer is the lowest location any seed in the ranges reaches through
      the half-open lookups. */
  lemma PartTwoLowest(tables: seq<seq<Entry>>, seeds: seq<Range>)
    requires WellFormed(tables) && seeds != [] && AllNonEmpty(seeds)
    ensures PartTwo(tables, seeds).Some?
    ensures PartTwo(tables, seeds).value in ChainSet(tables, Covered(seeds))
    ensures forall y | y in ChainSet(tables, Covered(seeds)) :: PartTwo(tables, seeds).value <= y
  {
    PipelinePieces(tables, seeds);
    PipelineImage(tables, seeds);
    LowestBegin(Pipeline(tables, seeds));
  }

  /** A range holding no point meets no source range, so every table
      passes it on unchanged. */
  lemma MappingEmpty(entries: seq<Entry>, q: Range)
    requires q.end <= q.begin
    ensures ComputeMapping(entries, q) == [q]
  {
    MappingMisses(entries, q);
  }

  lemma {:induction false} StageKeepsEmpty(entries: seq<Entry>, segs: seq<Range>, q: Range)
    requires q in segs && q.end <= q.begin
    ensures q in Stage(entries, segs)
    decreases |segs|
  {
    if segs[0] == q {
      MappingEmpty(entries, q);
    } else {
      StageKeepsEmpty(entries, segs[1..], q);
    }
  }

  lemma {:induction false} PipelineKeepsEmpty(tables: seq<seq<Entry>>, segs: seq<Range>, q: Range)
    requires q in segs && q.end <= q.begin
    ensures q in Pipeline(tables, segs)
    decreases |tables|
  {
    if tables != [] {
      StageKeepsEmpty(tables[0], segs, q);
      PipelineKeepsEmpty(tables[1..], Stage(tables[0], segs), q);
    }
  }

  /** A seed range of length zero (or less) reaches the last table as it
      is, so its beginning takes part in the minimum, whatever the tables
      hold: the answer is at most that beginning. */
  lemma EmptySeedLowers(tables: seq<seq<Entry>>, seeds: seq<Range>, q: Range)
    requires q in seeds && q.end <= q.begin
    ensures q.begin in Begins(Pipeline(tables, seeds))
    ensures PartTwo(tables, seeds).Some? && PartTwo(tables, seeds).value <= q.begin
  {
    var out := Pipeline(tables, seeds);
    PipelineKeepsEmpty(tables, seeds, q);
    BeginsAt(out);
    var k :| 0 <= k < |out| && out[k] == q;
    assert Begins(out)[k] == q.begin;
    LowestIsMin(Begins(out));
  }

  /** The seed range of length zero at 5 holds no seed, yet the answer is
      5: the answer need not be a location any seed reaches. */
  lemma EmptySeedUnreached(tables: seq<seq<Entry>>)
    ensures Covered([Range(5, 5)]) == {} && ChainSet(tables, Covered([Range(5, 5)])) == {}
    ensures PartTwo(tables, [Range(5, 5)]) == Some(5)
  {
    assert Points(Range(5, 5)) == {};
    assert Covered([Range(5, 5)]) == Points(Range(5, 5)) + Covered([]);
    PipelineLoneEmpty(tables, Range(5, 5));
    assert Begins([Range(5, 5)]) == [5];
    assert [5][..0] == [];
    assert Lowest([5]) == Some(5);
    assert ChainSet(tables, {}) == {};
  }

  /** The table whose source ranges [0, 10) and [5, 15) overlap. */
  function Overlapping(): seq<Entry> {
    [Entry(100, 0, 10), Entry(200, 5, 10)]
  }

  lemma OverlapPieces()
    ensures ComputeMapping(Overlapping(), Range(0, 20)) == [Range(100, 110), Range(10, 5), Range(200, 210), Range(15, 20)]
  {
    var t, q := Overlapping(), Range(0, 20);
    assert Hits(t, q) == t by {
      assert Hits(t[1..][1..], q) == [];
    }
    HitsMembers(t, q);
    assert MapFrom(t[1..][1..], q, 15) == [Range(15, 20)];
    assert MapFrom(t[1..], q, 10) == [Range(10, 5), Range(200, 210), Range(15, 20)];
  }

  lemma OverlapAnswer()
    ensures PartTwo([Overlapping()], [Range(0, 20)]) == Some(10)
  {
    var t, q := Overlapping(), Range(0, 20);
    var out := [Range(100, 110), Range(10, 5), Range(200, 210), Range(15, 20)];
    OverlapPieces();
    assert Stage(t, [q]) == out + Stage(t, []);
    assert Pipeline([t], [q]) == out;
    assert Begins(out) == [100, 10, 200, 15];
    LowestIsMin(Begins(out));
  }

  lemma OverlapMisses()
    ensures 10 !in ChainSet([Overlapping()], Covered([Range(0, 20)]))
  {
    var t, q := Overlapping(), Range(0, 20);
    assert Covered([q]) == Points(q) + Covered([]);
    forall x | x in Covered([q]) ensures ChainLookup([t], x) != 10 {
      assert ChainLookup([t], x) == ChainLookup([], Lookup(t, x));
    }
  }

  /** Source ranges that overlap break the pieces: under [0, 10) to 100
      and [5, 15) to 200, the seeds 0 up to 20 leave the reversed gap
      (10, 5) behind, and the answer 10 is a location no seed reaches. */
  lemma OverlapUnreached()
    ensures Sorted(Overlapping()) && !Disjoint(Overlapping())
    ensures ComputeMapping(Overlapping(), Range(0, 20)) == [Range(100, 110), Range(10, 5), Range(200, 210), Range(15, 20)]
    ensures PartTwo([Overlapping()], [Range(0, 20)]) == Some(10)
    ensures 10 !in ChainSet([Overlapping()], Covered([Range(0, 20)]))
  {
    var t := Overlapping();
    assert Intersect(Src(t[0]), Src(t[1])).Some?;
    OverlapPieces();
    OverlapAnswer();
    OverlapMisses();
  }

  /** A lone empty range passes every table unchanged. */
  lemma {:induction false} PipelineLoneEmpty(tables: seq<seq<Entry>>, q: Range)
    requires q.end <= q.begin
    ensures Pipeline(tables, [q]) == [q]
    decreases |tables|
  {
    if tables != [] {
      MappingEmpty(tables[0], q);
      assert Stage(tables[0], [q]) == [q] + Stage(tables[0], []);
      PipelineLoneEmpty(tables[1..], q);
    }
  }

  /** The seed line read as pairs of start and length; an odd last number
      is dropped, as zip drops it. */
  function SeedRanges(vs: seq<int>): (r: seq<Range>)
    ensures |r| == |vs| / 2
    decreases |vs|
  {
    if |vs| < 2 then [] else [Range(vs[0], vs[0] + vs[1])] + SeedRanges(vs[2..])
  }

  lemma {:induction false} SeedRangesAt(vs: seq<int>, k: int)
    requires 0 <= k < |vs| / 2
    ensures SeedRanges(vs)[k] == Range(vs[2 * k], vs[2 * k] + vs[2 * k + 1])
    decreases k
  {
    if k > 0 {
      SeedRangesAt(vs[2..], k - 1);
      assert vs[2..][2 * (k - 1)] == vs[2 * k];
      assert vs[2..][2 * (k - 1) + 1] == vs[2 * k + 1];
    }
  }

  /** A single seed maps to a single point: the location the half-open
      lookups give it. */
  lemma SinglePoint(tables: seq<seq<Entry>>, v: int)
    requires WellFormed(tables)
    ensures Covered(Pipeline(tables, [Range(v, v + 1)])) == {ChainLookup(tables, v)}
  {
    PipelineImage(tables, [Range(v, v + 1)]);
    assert Covered([Range(v, v + 1)]) == {v} by {
      assert Covered([Range(v, v + 1)]) == Points(Range(v, v + 1)) + Covered([]);
      assert Points(Range(v, v + 1)) == {v};
    }
  }
}

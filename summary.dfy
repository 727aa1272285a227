/**
 * The monthly visit-totals chart: for a given year, how many items carry a
 * Visit Date in each of the twelve months. The Visit? flag is not read.
 */
module Summary {
  import opened Wrappers
  import opened Cells
  import opened Dates
  import opened Seqs

  /** One point of a year's series; the month is its index (the short name is host formatting). */
  datatype MonthBucket = MonthBucket(month: MonthIndex, count: nat)

  /** The item's Visit Date parses to a date in the given year and month. */
  function InMonth(parse: DateParser, year: int, m: MonthIndex): Row -> bool {
    item => var d := parse(Field(item, VisitDateColumn)); d.Some? && d.value.year == year && d.value.month == m
  }

  /** The item's Visit Date parses to a date in the given year. */
  function InYear(parse: DateParser, year: int): Row -> bool {
    item => var d := parse(Field(item, VisitDateColumn)); d.Some? && d.value.year == year
  }

  /** The twelve points of the series, as a reference definition. */
  function MonthlyTotals(items: seq<Row>, year: int, parse: DateParser): seq<MonthBucket> {
    seq(12, i requires 0 <= i < 12 => MonthBucket(i, Count(items, InMonth(parse, year, i))))
  }

  /** The `reduce` that fills the month-indexed `counts` object. */
  method MonthCounts(inputData: seq<Row>, year: int, parse: DateParser) returns (counts: map<int, nat>)
    ensures forall m :: m in counts ==> 0 <= m < 12
    ensures forall m: MonthIndex :: m in counts <==> Count(inputData, InMonth(parse, year, m)) > 0
    ensures forall m: MonthIndex :: m in counts ==> counts[m] == Count(inputData, InMonth(parse, year, m))
  {
    counts := map[];
    for i := 0 to |inputData|
      invariant forall m :: m in counts ==> 0 <= m < 12
      invariant forall m: MonthIndex :: m in counts <==> Count(inputData[..i], InMonth(parse, year, m)) > 0
      invariant forall m: MonthIndex :: m in counts ==> counts[m] == Count(inputData[..i], InMonth(parse, year, m))
    {
      assert inputData[..i + 1][..i] == inputData[..i];
      var visitDate := parse(Field(inputData[i], VisitDateColumn));
      if visitDate.Some? && visitDate.value.year == year {
        var month := visitDate.value.month;
        counts := counts[month := (if month in counts then counts[month] else 0) + 1];
      }
    }
    assert inputData[..|inputData|] == inputData;
  }

  /** `processData(inputData, year)`. */
  method ProcessData(inputData: seq<Row>, year: int, parse: DateParser) returns (series: seq<MonthBucket>)
    ensures series == MonthlyTotals(inputData, year, parse)
  {
    var counts := MonthCounts(inputData, year, parse);
    series := [];
    for index := 0 to 12
      invariant series == MonthlyTotals(inputData, year, parse)[..index]
    {
      series := series + [MonthBucket(index, if index in counts then counts[index] else 0)];
    }
  }

  function SeriesTotal(series: seq<MonthBucket>): nat {
    if series == [] then 0 else SeriesTotal(series[..|series| - 1]) + series[|series| - 1].count
  }

  /** Twelve points, January first; point i counts the items dated in month i of the year. */
  lemma SeriesShape(items: seq<Row>, year: int, parse: DateParser, i: MonthIndex)
    ensures |MonthlyTotals(items, year, parse)| == 12
    ensures MonthlyTotals(items, year, parse)[i].month == i
    ensures MonthlyTotals(items, year, parse)[i].count == |Filter(items, InMonth(parse, year, i))|
  {
  }

  /** The item's Visit Date parses to a date in the given year, before month k. */
  function BeforeMonth(parse: DateParser, year: int, k: int): Row -> bool {
    item => var d := parse(Field(item, VisitDateColumn)); d.Some? && d.value.year == year && d.value.month < k
  }

  /** A prefix of the series sums to the items dated in the year's first n months. */
  lemma {:induction false} PrefixTotal(items: seq<Row>, year: int, parse: DateParser, n: nat)
    requires n <= 12
    ensures SeriesTotal(MonthlyTotals(items, year, parse)[..n]) == Count(items, BeforeMonth(parse, year, n))
  {
    var s := MonthlyTotals(items, year, parse);
    if n == 0 {
      forall k | 0 <= k < |items|
        ensures !BeforeMonth(parse, year, 0)(items[k])
      {
        var d := parse(Field(items[k], VisitDateColumn));
        assert d.Some? ==> d.value.month >= 0;
      }
      CountNone(items, BeforeMonth(parse, year, 0));
    } else {
      assert s[..n][..n - 1] == s[..n - 1];
      PrefixTotal(items, year, parse, n - 1);
      CountSplit(items, BeforeMonth(parse, year, n), BeforeMonth(parse, year, n - 1), InMonth(parse, year, n - 1));
    }
  }

  /** The twelve counts add up to the number of items dated in the year, so at most all items. */
  lemma YearTotal(items: seq<Row>, year: int, parse: DateParser)
    ensures SeriesTotal(MonthlyTotals(items, year, parse)) == Count(items, InYear(parse, year))
    ensures SeriesTotal(MonthlyTotals(items, year, parse)) <= |items|
  {
    var s := MonthlyTotals(items, year, parse);
    PrefixTotal(items, year, parse, 12);
    assert s[..12] == s;
    forall k | 0 <= k < |items|
      ensures InYear(parse, year)(items[k]) == BeforeMonth(parse, year, 12)(items[k])
    {
      var d := parse(Field(items[k], VisitDateColumn));
      assert d.Some? ==> d.value.month < 12;
    }
    CountCongruent(items, InYear(parse, year), BeforeMonth(parse, year, 12));
  }

  /** Items whose Visit Date does not parse are never counted. */
  lemma UndatedNeverCounted(items: seq<Row>, year: int, parse: DateParser, k: nat, m: MonthIndex)
    requires k < |items| && parse(Field(items[k], VisitDateColumn)).None?
    ensures items[k] !in Filter(items, InMonth(parse, year, m))
  {
  }

  /** A year with no dated item gives twelve zeros. */
  lemma {:induction false} EmptyYear(items: seq<Row>, year: int, parse: DateParser)
    requires forall k :: 0 <= k < |items| ==> !InYear(parse, year)(items[k])
    ensures forall i :: 0 <= i < 12 ==> MonthlyTotals(items, year, parse)[i].count == 0
  {
    forall i | 0 <= i < 12
      ensures MonthlyTotals(items, year, parse)[i].count == 0
    {
      CountNone(items, InMonth(parse, year, i));
    }
  }

  /** An item counts in at most one year: the 2024 and 2025 series together hold at most all items. */
  lemma TwoYearsBounded(items: seq<Row>, parse: DateParser)
    ensures SeriesTotal(MonthlyTotals(items, 2024, parse)) + SeriesTotal(MonthlyTotals(items, 2025, parse)) <= |items|
  {
    YearTotal(items, 2024, parse);
    YearTotal(items, 2025, parse);
    var either := (item: Row) => InYear(parse, 2024)(item) || InYear(parse, 2025)(item);
    CountSplit(items, either, InYear(parse, 2024), InYear(parse, 2025));
  }

  /** Only the Visit Date column matters: the Visit? flag and all other columns are not consulted. */
  lemma {:induction false} OnlyVisitDateMatters(a: seq<Row>, b: seq<Row>, year: int, parse: DateParser)
    requires |a| == |b|
    requires forall k :: 0 <= k < |a| ==> Field(a[k], VisitDateColumn) == Field(b[k], VisitDateColumn)
    ensures MonthlyTotals(a, year, parse) == MonthlyTotals(b, year, parse)
  {
    forall i | 0 <= i < 12
      ensures Count(a, InMonth(parse, year, i)) == Count(b, InMonth(parse, year, i))
    {
      MonthCountPointwise(a, b, parse, year, i);
    }
  }

  lemma {:induction false} MonthCountPointwise(a: seq<Row>, b: seq<Row>, parse: DateParser, year: int, m: MonthIndex)
    requires |a| == |b|
    requires forall k :: 0 <= k < |a| ==> Field(a[k], VisitDateColumn) == Field(b[k], VisitDateColumn)
    ensures Count(a, InMonth(parse, year, m)) == Count(b, InMonth(parse, year, m))
  {
    if a != [] {
      MonthCountPointwise(a[..|a| - 1], b[..|b| - 1], parse, year, m);
    }
  }
}

/**
 * The stage-distribution panel: how many items sit at each of five fixed
 * pipeline stages, and what share of all items that is.
 */
module StageDistribution {
  import opened Cells
  import opened Seqs

  const StageOrder: seq<string> := ["Prospect", "Visited", "Navigation", "Meeting Scheduled", "Donated"]

  datatype StageBucket = StageBucket(stage: string, count: nat, conversionRate: nat)

  /** The item would be counted under accumulator key k (`if (stage) acc[stage] = ...`). */
  function StageKeyIs(k: string): Row -> bool {
    item => Truthy(Field(item, StageColumn)) && JsString(Field(item, StageColumn)) == k
  }

  /** The item's Stage is exactly the string name. */
  function StageIs(name: string): Row -> bool {
    item => Field(item, StageColumn) == Str(name)
  }

  /** The item's Stage is one of the five listed names. */
  predicate ListedStage(item: Row) {
    exists j :: 0 <= j < |StageOrder| && Field(item, StageColumn) == Str(StageOrder[j])
  }

  function StageCount(items: seq<Row>, name: string): nat {
    Count(items, StageIs(name))
  }

  /**
   * `Math.round(c / n * 100)` on exact rationals: half rounds up.
   * Zero when there are no items.
   */
  function RoundPercent(c: nat, n: nat): (r: nat)
    ensures n == 0 ==> r == 0
    ensures n > 0 ==> 2 * n * r <= 200 * c + n < 2 * n * (r + 1)
  {
    if n == 0 then 0
    else
      DivBounds(200 * c + n, 2 * n);
      (200 * c + n) / (2 * n)
  }

  /** The buckets the panel shows, as a reference definition. */
  function Distribution(items: seq<Row>): seq<StageBucket> {
    seq(|StageOrder|, j requires 0 <= j < |StageOrder| =>
      StageBucket(StageOrder[j], StageCount(items, StageOrder[j]),
                  RoundPercent(StageCount(items, StageOrder[j]), |items|)))
  }

  /** The `reduce` that builds the `counts` object. */
  method CountStages(inputData: seq<Row>) returns (counts: map<string, nat>)
    ensures forall k :: k in counts <==> Count(inputData, StageKeyIs(k)) > 0
    ensures forall k :: k in counts ==> counts[k] == Count(inputData, StageKeyIs(k))
  {
    counts := map[];
    for i := 0 to |inputData|
      invariant forall k :: k in counts <==> Count(inputData[..i], StageKeyIs(k)) > 0
      invariant forall k :: k in counts ==> counts[k] == Count(inputData[..i], StageKeyIs(k))
    {
      assert inputData[..i + 1][..i] == inputData[..i];
      var stage := Field(inputData[i], StageColumn);
      if Truthy(stage) {
        var key := JsString(stage);
        counts := counts[key := (if key in counts then counts[key] else 0) + 1];
      }
    }
    assert inputData[..|inputData|] == inputData;
  }

  /** `processData`: five buckets in the fixed stage order. */
  method ProcessData(inputData: seq<Row>) returns (buckets: seq<StageBucket>)
    ensures buckets == Distribution(inputData)
  {
    var counts := CountStages(inputData);
    buckets := [];
    for j := 0 to |StageOrder|
      invariant buckets == Distribution(inputData)[..j]
    {
      var stage := StageOrder[j];
      var count := if stage in counts then counts[stage] else 0;
      KeyCountIsStageCount(inputData, stage);
      var rate := if |inputData| > 0 then RoundPercent(count, |inputData|) else 0;
      buckets := buckets + [StageBucket(stage, count, rate)];
    }
  }

  /** `totalChurches`: every item, whatever its stage. */
  function TotalChurches(items: seq<Row>): (n: nat)
    ensures n == Count(items, ListedStage) + Count(items, (item: Row) => !ListedStage(item))
  {
    CountSplit(items, (item: Row) => true, ListedStage, (item: Row) => !ListedStage(item));
    CountAll(items, (item: Row) => true);
    |items|
  }

  /** For a stage name, the accumulator key matches exactly the items with that Stage string. */
  lemma KeyCountIsStageCount(items: seq<Row>, name: string)
    requires name in StageOrder
    ensures Count(items, StageKeyIs(name)) == StageCount(items, name)
  {
    forall i | 0 <= i < |items|
      ensures StageKeyIs(name)(items[i]) == StageIs(name)(items[i])
    {
      CapitalisedKey(Field(items[i], StageColumn), name);
    }
    CountCongruent(items, StageKeyIs(name), StageIs(name));
  }

  function BucketTotal(buckets: seq<StageBucket>): nat {
    if buckets == [] then 0 else BucketTotal(buckets[..|buckets| - 1]) + buckets[|buckets| - 1].count
  }

  lemma BucketTotalUnfolded(items: seq<Row>)
    ensures BucketTotal(Distribution(items)) ==
      StageCount(items, StageOrder[0]) + StageCount(items, StageOrder[1]) + StageCount(items, StageOrder[2])
      + StageCount(items, StageOrder[3]) + StageCount(items, StageOrder[4])
  {
    var d := Distribution(items);
    assert d[..4][..3] == d[..3];
    assert d[..3][..2] == d[..2];
    assert d[..2][..1] == d[..1];
    assert d[..1][..0] == [];
    assert BucketTotal(d) == BucketTotal(d[..4]) + d[4].count;
    assert BucketTotal(d[..4]) == BucketTotal(d[..3]) + d[3].count;
    assert BucketTotal(d[..3]) == BucketTotal(d[..2]) + d[2].count;
    assert BucketTotal(d[..2]) == BucketTotal(d[..1]) + d[1].count;
    assert BucketTotal(d[..1]) == d[0].count;
  }

  /** The five counts add up to the number of items with a listed stage. */
  lemma {:induction false} BucketTotalIsListedCount(items: seq<Row>)
    ensures BucketTotal(Distribution(items)) == Count(items, ListedStage)
  {
    BucketTotalUnfolded(items);
    if items != [] {
      var prefix := items[..|items| - 1];
      var x := items[|items| - 1];
      BucketTotalIsListedCount(prefix);
      BucketTotalUnfolded(prefix);
      var st := Field(x, StageColumn);
      assert ListedStage(x) <==> (st == Str(StageOrder[0]) || st == Str(StageOrder[1]) || st == Str(StageOrder[2])
                                  || st == Str(StageOrder[3]) || st == Str(StageOrder[4]));
      assert StageOrder[1][0] != StageOrder[4][0];
    }
  }

  /**
   * Items with a missing, empty or unlisted Stage land in no bucket: the
   * buckets never hold more than all items, and strictly fewer as soon as
   * one item's Stage is unlisted.
   */
  lemma BucketsBounded(items: seq<Row>)
    ensures BucketTotal(Distribution(items)) <= TotalChurches(items)
    ensures (exists k :: 0 <= k < |items| && !ListedStage(items[k])) ==> BucketTotal(Distribution(items)) < TotalChurches(items)
  {
    BucketTotalIsListedCount(items);
    if exists k :: 0 <= k < |items| && !ListedStage(items[k]) {
      var k :| 0 <= k < |items| && !ListedStage(items[k]);
      CountBelowLength(items, ListedStage, k);
    }
  }

  /** With no items every count and every rate is 0. */
  lemma EmptyDistribution()
    ensures forall j :: 0 <= j < |Distribution([])| ==> Distribution([])[j].count == 0 && Distribution([])[j].conversionRate == 0
  {
  }

  /** A bucket's count is the number of items whose Stage is exactly its name. */
  lemma BucketMeaning(items: seq<Row>, j: nat)
    requires j < |StageOrder|
    ensures |Distribution(items)| == 5 && Distribution(items)[j].stage == StageOrder[j]
    ensures Distribution(items)[j].count == |Filter(items, StageIs(StageOrder[j]))|
    ensures Distribution(items)[j].count <= |items|
  {
  }

  /** Rates lie in 0..100; every item at that stage gives exactly 100. */
  lemma RateBounds(c: nat, n: nat)
    requires c <= n
    ensures RoundPercent(c, n) <= 100
    ensures 0 < n == c ==> RoundPercent(c, n) == 100
    ensures RoundPercent(c, n) == 100 ==> 200 * c >= 199 * n
  {
    if n > 0 {
      var a, b := 200 * c + n, 2 * n;
      var r := a / b;
      DivBounds(a, b);
      assert b * r <= a < b * r + b;
      assert a < b * 101;
      MulLessCancel(b, r, 101);
      if c == n {
        assert b * 100 <= a;
        assert b * 100 < b * (r + 1);
        MulLessCancel(b, 100, r + 1);
      }
      if r == 100 {
        assert b * 100 <= a;
      }
    }
  }

  lemma DivBounds(a: nat, b: nat)
    requires b > 0
    ensures b * (a / b) <= a < b * (a / b) + b
  {
  }

  lemma MulLessCancel(b: nat, x: int, y: int)
    requires b * x < b * y
    ensures x < y
  {
    if x >= y {
      MulMonotone(b, y, x);
    }
  }

  lemma MulMonotone(b: nat, x: int, y: int)
    requires x <= y
    ensures b * x <= b * y
  {
    assert b * y - b * x == b * (y - x);
  }

  /** The converse fails from 200 items on: 199 out of 200 also rounds to 100. */
  lemma RateHundredWithoutAll()
    ensures RoundPercent(199, 200) == 100
  {
  }

  /** The buckets depend only on which items there are, not on their order. */
  lemma DistributionOrderIndependent(a: seq<Row>, b: seq<Row>)
    requires multiset(a) == multiset(b)
    ensures Distribution(a) == Distribution(b)
  {
    assert |a| == |multiset(a)| == |b|;
    forall j | 0 <= j < |StageOrder|
      ensures StageCount(a, StageOrder[j]) == StageCount(b, StageOrder[j])
    {
      CountPermutation(a, b, StageIs(StageOrder[j]));
    }
  }
}

/**
 * The Church Locations card: the search over names and addresses, the
 * grid each listed church's marker is placed on, and the marker colour
 * chosen from the Stage.
 */
module ChurchMap {
  import opened Text
  import opened Cells
  import opened Seqs
  import StageDistribution

  /** `value?.toLowerCase().includes(term)`: only a string can match; a missing value short-circuits to no match. */
  predicate MatchesText(c: Cell, searchInput: string) {
    c.Str? && Contains(Lower(c.s), Lower(searchInput))
  }

  predicate MatchesSearch(church: Row, searchInput: string) {
    MatchesText(Field(church, ChurchColumn), searchInput) || MatchesText(Field(church, AddressColumn), searchInput)
  }

  /**
   * The test does not throw: each value it calls `toLowerCase` on is a
   * string or missing. The Address is only reached when the name does not
   * match.
   */
  predicate SearchDefined(church: Row, searchInput: string) {
    var name, address := Field(church, ChurchColumn), Field(church, AddressColumn);
    (name.Str? || Nullish(name))
    && (MatchesText(name, searchInput) || address.Str? || Nullish(address))
  }

  function SearchFilter(searchInput: string): Row -> bool {
    church => MatchesSearch(church, searchInput)
  }

  /** `filteredChurches`: in input order, the items whose name or address contains the search text, ignoring case. */
  function FilteredChurches(data: seq<Row>, searchInput: string): (r: seq<Row>)
    requires forall i :: 0 <= i < |data| ==> SearchDefined(data[i], searchInput)
    ensures forall c :: c in r <==> c in data && MatchesSearch(c, searchInput)
    ensures |r| == Count(data, SearchFilter(searchInput)) <= |data|
    ensures exists idx :: IndexMap(r, data, idx)
  {
    FilterIsSubsequence(data, SearchFilter(searchInput));
    Filter(data, SearchFilter(searchInput))
  }

  /** The item has a name or an address string. */
  predicate HasText(church: Row) {
    Field(church, ChurchColumn).Str? || Field(church, AddressColumn).Str?
  }

  /** An empty search text matches every string value. */
  lemma EmptySearchMatches(c: Cell)
    ensures MatchesText(c, "") <==> c.Str?
  {
    assert Lower("") == [];
    if c.Str? {
      assert [] <= Lower(c.s);
    }
  }

  /** With nothing typed, every item with a name or an address string is kept, and only those. */
  lemma EmptySearchKeepsNamedOrAddressed(data: seq<Row>)
    requires forall i :: 0 <= i < |data| ==> SearchDefined(data[i], "")
    ensures FilteredChurches(data, "") == Filter(data, HasText)
  {
    forall i | 0 <= i < |data|
      ensures SearchFilter("")(data[i]) == HasText(data[i])
    {
      EmptySearchMatches(Field(data[i], ChurchColumn));
      EmptySearchMatches(Field(data[i], AddressColumn));
    }
    FilterCongruent(data, SearchFilter(""), HasText);
  }

  // Marker layout

  datatype Point = Point(x: int, y: int)

  /** `getPosition(index)`: `Math.floor` of a non-negative quotient is Dafny's division. */
  function Position(index: nat): (p: Point)
    ensures 100 <= p.x <= 350 && p.x % 50 == 0
    ensures 150 <= p.y && p.y % 50 == 0
  {
    var q, r := index / 6, index % 6;
    assert index * 50 == 300 * q + 50 * r;
    assert 0 <= 50 * r < 300;
    Point(100 + (index * 50) % 300, 150 + (index / 6) * 50)
  }

  /** Markers fill rows of six, 50 apart, from x = 100 to x = 350. */
  lemma PositionColumn(index: nat)
    ensures Position(index).x == 100 + 50 * (index % 6)
    ensures 100 <= Position(index).x <= 350
  {
    var q, r := index / 6, index % 6;
    assert index * 50 == 300 * q + 50 * r;
    assert 0 <= 50 * r < 300;
  }

  /** Rows go down 50 at a time; an index's row is its block of six. */
  lemma PositionRow(i: nat, j: nat)
    ensures Position(i).y == 150 + 50 * (i / 6)
    ensures i <= j ==> Position(i).y <= Position(j).y
    ensures i / 6 == j / 6 ==> Position(i).y == Position(j).y
  {
    if i <= j {
      assert i / 6 <= j / 6;
    }
  }

  /** No two indices share a marker position. */
  lemma PositionInjective(i: nat, j: nat)
    requires Position(i) == Position(j)
    ensures i == j
  {
    PositionColumn(i);
    PositionColumn(j);
    assert i % 6 == j % 6;
    assert i / 6 == j / 6;
    assert i == 6 * (i / 6) + i % 6;
    assert j == 6 * (j / 6) + j % 6;
  }

  // Marker colour

  const StageColours: map<string, string> := map[
    "Prospect" := "#EAB308",
    "Contacted" := "#3B82F6",
    "Visited" := "#22C55E",
    "Follow-up" := "#A855F7",
    "Engaged" := "#059669"]

  const Fallback := "#94A3B8"

  /** `stageColors[church.Stage] || '#94A3B8'`: the Stage as a property key, then the fallback. */
  function MarkerColour(stage: Cell): (colour: string)
    ensures colour in StageColours.Values || colour == Fallback
    ensures colour != Fallback <==> JsString(stage) in StageColours
  {
    var key := JsString(stage);
    if key in StageColours then StageColours[key] else Fallback
  }

  /** Only the exact string of a listed stage gets that stage's colour. */
  lemma ColourOfStage(stage: Cell, name: string)
    requires name in StageColours
    ensures MarkerColour(stage) == StageColours[name] <==> stage == Str(name)
  {
    CapitalisedKey(stage, name);
    forall other | other in StageColours && other != name
      ensures StageColours[other] != StageColours[name]
    {
    }
  }

  /** Three of the stages the distribution card counts have no colour of their own here. */
  lemma DistributionStagesWithoutColour()
    ensures forall j :: 0 <= j < |StageDistribution.StageOrder| ==>
      (MarkerColour(Str(StageDistribution.StageOrder[j])) == Fallback <==> j >= 2)
  {
  }
}

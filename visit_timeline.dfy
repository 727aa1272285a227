/**
 * The Visit Timeline: the visited items as visit records, newest first,
 * the four counters above the list (total, unique churches, this week,
 * upcoming) and the "View More" / "Show Less" paging state.
 */
module VisitTimeline {
  import opened Wrappers
  import opened Cells
  import opened Dates
  import opened Seqs
  import opened Sorting

  /** The record each visited item is mapped to; `confirmed` is always true. */
  datatype Visit = Visit(church: Cell, date: Cell, address: Cell, notes: Cell, confirmed: bool)

  function ToVisit(item: Row): (v: Visit)
    ensures v.confirmed
    ensures v.church == Field(item, ChurchColumn) && v.date == Field(item, VisitDateColumn)
  {
    Visit(Field(item, ChurchColumn), Field(item, VisitDateColumn), Field(item, AddressColumn), Field(item, VisitNotesColumn), true)
  }

  /** `.map(item => ({ ... }))`. */
  function VisitsOf(rows: seq<Row>): (r: seq<Visit>)
    ensures |r| == |rows| && forall i :: 0 <= i < |rows| ==> r[i] == ToVisit(rows[i])
  {
    seq(|rows|, i requires 0 <= i < |rows| => ToVisit(rows[i]))
  }

  predicate Dated(v: Visit, parse: DateParser) {
    parse(v.date).Some?
  }

  function Stamp(v: Visit, parse: DateParser): int
    requires Dated(v, parse)
  {
    parse(v.date).value.stamp
  }

  /**
   * `(a, b) => new Date(b.date) - new Date(a.date)`, read as "a may come
   * before b": later dates first. The comparator is NaN as soon as one
   * date is invalid, which leaves the engine's order unspecified; this
   * model places the undated visits after the dated ones.
   */
  function NewestFirst(parse: DateParser): (Visit, Visit) -> bool {
    (a: Visit, b: Visit) => Dated(b, parse) ==> Dated(a, parse) && Stamp(a, parse) >= Stamp(b, parse)
  }

  lemma NewestFirstIsTotalPreorder(parse: DateParser)
    ensures TotalPreorder(NewestFirst(parse))
  {
  }

  /** `visits`: the visited items' records, dated ones newest first, undated ones last. */
  function Visits(data: seq<Row>, parse: DateParser): (r: seq<Visit>)
    ensures multiset(r) == multiset(VisitsOf(Filter(data, Visited)))
    ensures forall i, j :: 0 <= i < j < |r| && Dated(r[j], parse) ==>
      Dated(r[i], parse) && Stamp(r[i], parse) >= Stamp(r[j], parse)
  {
    var r := InsertionSort(VisitsOf(Filter(data, Visited)), NewestFirst(parse));
    NewestFirstIsTotalPreorder(parse);
    InsertionSortSorted(VisitsOf(Filter(data, Visited)), NewestFirst(parse));
    assert forall i, j :: 0 <= i < j < |r| ==> NewestFirst(parse)(r[i], r[j]);
    r
  }

  /** A record is in the timeline exactly when some visited item maps to it. */
  lemma VisitsAreVisitedItems(data: seq<Row>, parse: DateParser, v: Visit)
    ensures v in Visits(data, parse) <==> exists i :: 0 <= i < |data| && Visited(data[i]) && ToVisit(data[i]) == v
  {
    var visited := Filter(data, Visited);
    var mapped := VisitsOf(visited);
    assert v in Visits(data, parse) <==> v in mapped by {
      assert v in Visits(data, parse) <==> v in multiset(Visits(data, parse));
      assert v in mapped <==> v in multiset(mapped);
    }
    if v in mapped {
      var k :| 0 <= k < |mapped| && mapped[k] == v;
      assert visited[k] in visited;
      var i :| 0 <= i < |data| && data[i] == visited[k];
    }
    if exists i :: 0 <= i < |data| && Visited(data[i]) && ToVisit(data[i]) == v {
      var i :| 0 <= i < |data| && Visited(data[i]) && ToVisit(data[i]) == v;
      assert data[i] in visited;
      var k :| 0 <= k < |visited| && visited[k] == data[i];
      assert mapped[k] == v;
    }
  }

  /** `totalVisits`. */
  function TotalVisits(data: seq<Row>, parse: DateParser): (n: nat)
    ensures n == Count(data, Visited)
  {
    var r := Visits(data, parse);
    assert |r| == |multiset(r)| == |multiset(VisitsOf(Filter(data, Visited)))|;
    |r|
  }

  /** Every record is confirmed. */
  lemma AllConfirmed(data: seq<Row>, parse: DateParser)
    ensures forall v :: v in Visits(data, parse) ==> v.confirmed
  {
    forall v | v in Visits(data, parse)
      ensures v.confirmed
    {
      VisitsAreVisitedItems(data, parse, v);
    }
  }

  // Unique churches

  /** `item.Address || 'no-address'`, as it appears in the template literal. */
  function AddressPart(item: Row): string {
    var address := Field(item, AddressColumn);
    if Truthy(address) then JsString(address) else "no-address"
  }

  /** `` `${item.Church}|${item.Address || 'no-address'}` ``. */
  function TimelineKey(item: Row): string {
    JsString(Field(item, ChurchColumn)) + "|" + AddressPart(item)
  }

  /** The keys of the visited, named items: `Object.keys(uniqueChurches)`. */
  function TimelineKeys(data: seq<Row>): set<string> {
    KeysOf(data, NamedVisit, TimelineKey)
  }

  /** Position i holds the first visited, named item with its key. */
  predicate FirstOfKey(data: seq<Row>, i: int) {
    0 <= i < |data| && NamedVisit(data[i])
    && forall j :: 0 <= j < i ==> !(NamedVisit(data[j]) && TimelineKey(data[j]) == TimelineKey(data[i]))
  }

  ghost predicate Seen(data: seq<Row>, n: nat, acc: map<string, Row>)
    requires n <= |data|
  {
    && acc.Keys == TimelineKeys(data[..n])
    && (forall k :: k in acc ==> NamedVisit(acc[k]) && TimelineKey(acc[k]) == k)
    && (forall j :: 0 <= j < n && FirstOfKey(data, j) ==> TimelineKey(data[j]) in acc && acc[TimelineKey(data[j])] == data[j])
  }

  /** The `uniqueChurches` reduce: the first visited item per key is kept. */
  method UniqueChurches(data: seq<Row>) returns (acc: map<string, Row>)
    ensures acc.Keys == TimelineKeys(data)
    ensures forall k :: k in acc ==> NamedVisit(acc[k]) && TimelineKey(acc[k]) == k
    ensures forall j :: FirstOfKey(data, j) ==> TimelineKey(data[j]) in acc && acc[TimelineKey(data[j])] == data[j]
  {
    acc := map[];
    for i := 0 to |data|
      invariant Seen(data, i, acc)
    {
      var item := data[i];
      if NamedVisit(item) {
        var churchKey := TimelineKey(item);
        if churchKey !in acc {
          SeenAdd(data, i, acc);
          acc := acc[churchKey := item];
        } else {
          SeenSkip(data, i, acc);
        }
      } else {
        SeenSkip(data, i, acc);
      }
    }
    assert data[..|data|] == data;
  }

  /** An unnamed or unvisited item, or a key already stored, leaves the accumulator alone. */
  lemma SeenSkip(data: seq<Row>, i: nat, acc: map<string, Row>)
    requires i < |data| && Seen(data, i, acc)
    requires NamedVisit(data[i]) ==> TimelineKey(data[i]) in acc
    ensures Seen(data, i + 1, acc)
  {
    KeysStep(data, i);
    assert !FirstOfKey(data, i) by {
      if FirstOfKey(data, i) {
        FirstKeyIsNew(data, i);
      }
    }
  }

  /** One more item adds its key to the keys of the prefix, if it is visited and named. */
  lemma KeysStep(data: seq<Row>, i: nat)
    requires i < |data|
    ensures TimelineKeys(data[..i + 1]) == TimelineKeys(data[..i]) + (if NamedVisit(data[i]) then {TimelineKey(data[i])} else {})
  {
    assert data[..i + 1][..i] == data[..i];
  }

  /** A new key stores its item. */
  lemma SeenAdd(data: seq<Row>, i: nat, acc: map<string, Row>)
    requires i < |data| && Seen(data, i, acc)
    requires NamedVisit(data[i]) && TimelineKey(data[i]) !in acc
    ensures Seen(data, i + 1, acc[TimelineKey(data[i]) := data[i]])
  {
    var key := TimelineKey(data[i]);
    KeysStep(data, i);
    KeyUnseen(data, i, key);
  }

  /** A key missing from the first i items' keys belongs to none of them. */
  lemma KeyUnseen(data: seq<Row>, i: nat, key: string)
    requires i <= |data| && key !in TimelineKeys(data[..i])
    ensures forall j :: 0 <= j < i && NamedVisit(data[j]) ==> TimelineKey(data[j]) != key
  {
    KeysOfMembership(data[..i], NamedVisit, TimelineKey, key);
    forall j | 0 <= j < i && NamedVisit(data[j])
      ensures TimelineKey(data[j]) != key
    {
      assert data[..i][j] == data[j];
    }
  }

  lemma FirstKeyIsNew(data: seq<Row>, i: nat)
    requires FirstOfKey(data, i)
    ensures TimelineKey(data[i]) !in TimelineKeys(data[..i])
  {
    KeysOfMembership(data[..i], NamedVisit, TimelineKey, TimelineKey(data[i]));
    forall j | 0 <= j < i
      ensures data[..i][j] == data[j]
    {
    }
  }

  /** `uniqueChurchCount`. */
  method UniqueChurchCount(data: seq<Row>) returns (n: nat)
    ensures n == |TimelineKeys(data)|
  {
    var acc := UniqueChurches(data);
    n := |acc.Keys|;
  }

  /** There are never more unique churches than visits. */
  lemma UniqueChurchesBounded(data: seq<Row>, parse: DateParser)
    ensures |TimelineKeys(data)| <= TotalVisits(data, parse)
  {
    KeysOfBound(data, NamedVisit, TimelineKey);
    CountMonotone(data, NamedVisit, Visited);
  }

  /** For one church name, two items share a key exactly when their address parts agree. */
  lemma SameChurchKeys(a: Row, b: Row)
    requires JsString(Field(a, ChurchColumn)) == JsString(Field(b, ChurchColumn))
    ensures TimelineKey(a) == TimelineKey(b) <==> AddressPart(a) == AddressPart(b)
  {
    var prefix := JsString(Field(a, ChurchColumn)) + "|";
    assert TimelineKey(a) == prefix + AddressPart(a);
    assert TimelineKey(b) == prefix + AddressPart(b);
    if TimelineKey(a) == TimelineKey(b) {
      assert AddressPart(a) == TimelineKey(a)[|prefix|..];
      assert AddressPart(b) == TimelineKey(b)[|prefix|..];
    }
  }

  /** Items of one church with no address, or an empty one, all share one key. */
  lemma MissingAddressesShareKey(a: Row, b: Row)
    requires JsString(Field(a, ChurchColumn)) == JsString(Field(b, ChurchColumn))
    requires !Truthy(Field(a, AddressColumn)) && !Truthy(Field(b, AddressColumn))
    ensures TimelineKey(a) == TimelineKey(b)
  {
    SameChurchKeys(a, b);
  }

  /** Two different address texts give one church two keys. */
  lemma DifferentAddressesDifferentKeys(a: Row, b: Row)
    requires JsString(Field(a, ChurchColumn)) == JsString(Field(b, ChurchColumn))
    requires Field(a, AddressColumn).Str? && Field(b, AddressColumn).Str?
    requires Field(a, AddressColumn).s != "" && Field(b, AddressColumn).s != ""
    requires Field(a, AddressColumn) != Field(b, AddressColumn)
    ensures TimelineKey(a) != TimelineKey(b)
  {
    SameChurchKeys(a, b);
  }

  /**
   * The key is not injective: a '|' inside the name or the address, or an
   * address spelt "no-address", makes different items collide.
   */
  lemma KeyCollisions()
    ensures TimelineKey(map[ChurchColumn := Str("A|B"), AddressColumn := Str("C")])
         == TimelineKey(map[ChurchColumn := Str("A"), AddressColumn := Str("B|C")])
    ensures TimelineKey(map[ChurchColumn := Str("A"), AddressColumn := Str("no-address")])
         == TimelineKey(map[ChurchColumn := Str("A")])
  {
    var r1: Row := map[ChurchColumn := Str("A|B"), AddressColumn := Str("C")];
    var r2: Row := map[ChurchColumn := Str("A"), AddressColumn := Str("B|C")];
    assert Field(r1, ChurchColumn) == Str("A|B") && Field(r1, AddressColumn) == Str("C");
    assert Field(r2, ChurchColumn) == Str("A") && Field(r2, AddressColumn) == Str("B|C");
    var r3: Row := map[ChurchColumn := Str("A"), AddressColumn := Str("no-address")];
    var r4: Row := map[ChurchColumn := Str("A")];
    assert Field(r3, AddressColumn) == Str("no-address");
    assert Field(r4, AddressColumn) == Undefined;
  }

  // Counters

  /** `new Date(v.date) > new Date()`. */
  function UpcomingAfter(now: Moment, parse: DateParser): Visit -> bool {
    (v: Visit) => After(parse(v.date), Some(now))
  }

  /** `upcomingVisits`. */
  function UpcomingVisits(visits: seq<Visit>, now: Moment, parse: DateParser): (n: nat)
    ensures n <= |visits|
  {
    Count(visits, UpcomingAfter(now, parse))
  }

  /** An undated visit is never upcoming. */
  lemma UndatedNeverUpcoming(visits: seq<Visit>, now: Moment, parse: DateParser)
    requires forall i :: 0 <= i < |visits| ==> !Dated(visits[i], parse)
    ensures UpcomingVisits(visits, now, parse) == 0
  {
    CountNone(visits, UpcomingAfter(now, parse));
  }

  /** The later the clock, the fewer visits are upcoming. */
  lemma UpcomingShrinks(visits: seq<Visit>, earlier: Moment, later: Moment, parse: DateParser)
    requires earlier.stamp <= later.stamp
    ensures UpcomingVisits(visits, later, parse) <= UpcomingVisits(visits, earlier, parse)
  {
    forall i | 0 <= i < |visits| && UpcomingAfter(later, parse)(visits[i])
      ensures UpcomingAfter(earlier, parse)(visits[i])
    {
      assert After(parse(visits[i].date), Some(later));
    }
    CountMonotone(visits, UpcomingAfter(later, parse), UpcomingAfter(earlier, parse));
  }

  /**
   * The two `setDate` calls of the "this week" test. The first moves
   * `today` back to Sunday; the second reads the moved `today` (a Sunday)
   * and moves it on six days. Both keep now's time of day.
   */
  function WeekBounds(now: int): (b: (int, int))
    ensures Weekday(b.0) == 0 && Weekday(b.1) == 6
    ensures b.0 <= now < AddDays(b.0, 7) && b.1 == AddDays(b.0, 6)
    ensures b.0 % DayMs == now % DayMs
  {
    var today := AddDays(now, -Weekday(now));
    WeekdayAddDays(now, -Weekday(now));
    AddDaysDayNumber(now, -Weekday(now));
    var weekStart := today;
    var weekEnd := AddDays(today, -Weekday(today) + 6);
    WeekdayAddDays(today, 6);
    (weekStart, weekEnd)
  }

  /** `visitDate >= weekStart && visitDate <= weekEnd`: false for an invalid date. */
  function InWeek(now: Moment, parse: DateParser): Visit -> bool {
    (v: Visit) => Dated(v, parse) && WeekBounds(now.stamp).0 <= Stamp(v, parse) <= WeekBounds(now.stamp).1
  }

  /** `thisWeekVisits`. */
  function ThisWeekVisits(visits: seq<Visit>, now: Moment, parse: DateParser): (n: nat)
    ensures n <= |visits|
  {
    Count(visits, InWeek(now, parse))
  }

  /** A visit dated at the present moment is counted this week. */
  lemma ThisWeekIncludesNow(visits: seq<Visit>, now: Moment, parse: DateParser, k: nat)
    requires k < |visits| && Dated(visits[k], parse) && Stamp(visits[k], parse) == now.stamp
    ensures ThisWeekVisits(visits, now, parse) > 0
  {
    CountPositive(visits, InWeek(now, parse), k);
  }

  /**
   * As written, the week starts on Sunday at now's time of day, so a visit
   * dated at midnight this Sunday is missed on any later day: here now is
   * Wednesday 7 January 1970 at noon and the visit is Sunday the 4th.
   */
  lemma ThisWeekMissesSundayMidnight()
    ensures ThisWeekVisits([Visit(Str("Grace"), Str("1/4/1970"), Undefined, Undefined, true)],
                           Moment(6 * DayMs + DayMs / 2, 1970, 0), c => Some(Moment(3 * DayMs, 1970, 0))) == 0
    ensures ThisWeekVisitsIntended([Visit(Str("Grace"), Str("1/4/1970"), Undefined, Undefined, true)],
                                   Moment(6 * DayMs + DayMs / 2, 1970, 0), c => Some(Moment(3 * DayMs, 1970, 0))) == 1
  {
    var now := Moment(6 * DayMs + DayMs / 2, 1970, 0);
    var v := Visit(Str("Grace"), Str("1/4/1970"), Undefined, Undefined, true);
    var parse: DateParser := c => Some(Moment(3 * DayMs, 1970, 0));
    assert Weekday(now.stamp) == 3;
    assert [v][..0] == [];
    assert !InWeek(now, parse)(v);
    assert InCalendarWeek(now, parse)(v) by {
      assert Stamp(v, parse) / DayMs == 3;
      SameWeekIffInBounds(now.stamp, 3 * DayMs);
    }
  }

  /** Day numbers counted in whole Sunday-to-Saturday weeks: day 3 (4 January 1970) starts week 1. */
  function WeekNumber(stamp: int): int {
    (stamp / DayMs + 4) / 7
  }

  /** The intended bounds: Sunday 00:00 up to the last millisecond of Saturday. */
  function CalendarWeekBounds(now: int): (b: (int, int))
    ensures Weekday(b.0) == 0 && b.0 % DayMs == 0 && b.0 <= now <= b.1
    ensures b.1 == AddDays(b.0, 7) - 1
  {
    var start := (now / DayMs - Weekday(now)) * DayMs;
    assert (now / DayMs) * DayMs <= now;
    assert start / DayMs == now / DayMs - Weekday(now);
    (start, AddDays(start, 7) - 1)
  }

  /** A stamp lies within the intended bounds exactly when it falls in now's calendar week. */
  lemma SameWeekIffInBounds(now: int, t: int)
    ensures CalendarWeekBounds(now).0 <= t <= CalendarWeekBounds(now).1 <==> WeekNumber(t) == WeekNumber(now)
  {
    var n, d := now / DayMs, t / DayMs;
    var w := Weekday(now);
    var start := CalendarWeekBounds(now).0;
    assert start == (n - w) * DayMs;
    assert n + 4 == 7 * WeekNumber(now) + w;
    assert DayMs * d <= t < DayMs * d + DayMs;
    assert start <= t <==> n - w <= d;
    assert t <= CalendarWeekBounds(now).1 <==> d <= n - w + 6;
    assert d + 4 == 7 * WeekNumber(t) + (d + 4) % 7;
  }

  function InCalendarWeek(now: Moment, parse: DateParser): Visit -> bool {
    (v: Visit) => Dated(v, parse) && CalendarWeekBounds(now.stamp).0 <= Stamp(v, parse) <= CalendarWeekBounds(now.stamp).1
  }

  /** `thisWeekVisits` as evidently intended: visits in now's Sunday-to-Saturday week. */
  function ThisWeekVisitsIntended(visits: seq<Visit>, now: Moment, parse: DateParser): (n: nat)
    ensures n <= |visits|
  {
    Count(visits, InCalendarWeek(now, parse))
  }

  /** The intended count is exactly the visits whose date has now's week number. */
  lemma ThisWeekIntendedMeaning(visits: seq<Visit>, now: Moment, parse: DateParser)
    ensures ThisWeekVisitsIntended(visits, now, parse)
         == Count(visits, (v: Visit) => Dated(v, parse) && WeekNumber(Stamp(v, parse)) == WeekNumber(now.stamp))
  {
    forall i | 0 <= i < |visits|
      ensures InCalendarWeek(now, parse)(visits[i])
          == (Dated(visits[i], parse) && WeekNumber(Stamp(visits[i], parse)) == WeekNumber(now.stamp))
    {
      if Dated(visits[i], parse) {
        SameWeekIffInBounds(now.stamp, Stamp(visits[i], parse));
      }
    }
    CountCongruent(visits, InCalendarWeek(now, parse),
      (v: Visit) => Dated(v, parse) && WeekNumber(Stamp(v, parse)) == WeekNumber(now.stamp));
  }

  /** The as-written week lies inside the intended one. */
  lemma ThisWeekWithinIntended(visits: seq<Visit>, now: Moment, parse: DateParser)
    ensures ThisWeekVisits(visits, now, parse) <= ThisWeekVisitsIntended(visits, now, parse)
  {
    var b, c := WeekBounds(now.stamp), CalendarWeekBounds(now.stamp);
    WeekdayAddDays(now.stamp, -Weekday(now.stamp));
    AddDaysDayNumber(now.stamp, -Weekday(now.stamp));
    assert b.0 / DayMs == now.stamp / DayMs - Weekday(now.stamp);
    assert c.0 <= b.0 && b.1 <= c.1;
    CountMonotone(visits, InWeek(now, parse), InCalendarWeek(now, parse));
  }

  // Paging

  /** The `visibleVisits` state and its two buttons. */
  class TimelinePager {
    var visibleVisits: int

    /** Always a positive multiple of 5. */
    predicate Valid()
      reads this
    {
      visibleVisits >= 5 && visibleVisits % 5 == 0
    }

    /** `useState(5)`. */
    constructor ()
      ensures Valid() && visibleVisits == 5
    {
      visibleVisits := 5;
    }

    /** "View More Visits": `setVisibleVisits(visibleVisits + 5)`. */
    method ViewMore()
      requires Valid()
      modifies this
      ensures Valid() && visibleVisits == old(visibleVisits) + 5
    {
      visibleVisits := visibleVisits + 5;
    }

    /** "Show Less": `setVisibleVisits(5)`. */
    method ShowLess()
      requires Valid()
      modifies this
      ensures Valid() && visibleVisits == 5 && !ShowLessOffered()
    {
      visibleVisits := 5;
    }

    /** `visits.slice(0, visibleVisits)`: the first min(visibleVisits, |visits|) visits. */
    function Shown(visits: seq<Visit>): (r: seq<Visit>)
      requires Valid()
      reads this
      ensures r <= visits && |r| <= visibleVisits
      ensures |r| == visibleVisits || r == visits
      ensures r != visits <==> ViewMoreOffered(|visits|)
    {
      if visibleVisits < |visits| then visits[..visibleVisits] else visits
    }

    /** "View More Visits" is rendered when there is more to show. */
    predicate ViewMoreOffered(total: nat)
      reads this
    {
      visibleVisits < total
    }

    /** "Show Less" is rendered once the list has been extended. */
    predicate ShowLessOffered()
      reads this
    {
      visibleVisits > 5
    }
  }
}

/**
 * The debug card that reconciles the timeline's visit count with the
 * church list's unique-name count: the visits grouped by church name, the
 * names visited more than once, and the visits without a name.
 */
module DebugVisits {
  import opened Wrappers
  import opened Cells
  import opened Dates
  import opened Seqs
  import opened Sorting
  import ChurchList
  import VisitTimeline

  /** `visitTimelineCount`. */
  function VisitTimelineCount(data: seq<Row>): (n: nat)
    ensures n <= |data|
  {
    Count(data, Visited)
  }

  /** The count uses the same test as the timeline, so the two totals agree. */
  lemma SameAsTimelineTotal(data: seq<Row>, parse: DateParser)
    ensures VisitTimelineCount(data) == VisitTimeline.TotalVisits(data, parse)
  {
  }

  /** The items filed under name k: visited, named, and named k. */
  function HasName(k: string): Row -> bool {
    item => NamedVisit(item) && ChurchList.NameKey(item) == k
  }

  /** Total size of the groups listed in order. */
  function SumSizes(groups: map<string, seq<Row>>, order: seq<string>): nat
    requires forall k :: k in order ==> k in groups
  {
    if order == [] then 0 else SumSizes(groups, order[..|order| - 1]) + |groups[order[|order| - 1]]|
  }

  lemma {:induction false} SumSizesUnchanged(groups: map<string, seq<Row>>, groups': map<string, seq<Row>>, order: seq<string>)
    requires forall k :: k in order ==> k in groups && k in groups' && groups[k] == groups'[k]
    ensures SumSizes(groups, order) == SumSizes(groups', order)
  {
    if order != [] {
      SumSizesUnchanged(groups, groups', order[..|order| - 1]);
    }
  }

  /** Growing one listed group by one item grows the total by one. */
  lemma {:induction false} SumSizesGrow(groups: map<string, seq<Row>>, order: seq<string>, k: string, item: Row)
    requires Distinct(order) && k in order && forall j :: j in order ==> j in groups
    ensures SumSizes(groups[k := groups[k] + [item]], order) == SumSizes(groups, order) + 1
  {
    var groups' := groups[k := groups[k] + [item]];
    var prefix := order[..|order| - 1];
    assert Distinct(prefix);
    if order[|order| - 1] == k {
      assert k !in prefix;
      SumSizesUnchanged(groups, groups', prefix);
    } else {
      assert k in prefix;
      SumSizesGrow(groups, prefix, k, item);
    }
  }

  /** A new group listed last adds its own size. */
  lemma SumSizesAppend(groups: map<string, seq<Row>>, order: seq<string>, k: string, g: seq<Row>)
    requires k !in order && forall j :: j in order ==> j in groups
    ensures SumSizes(groups[k := g], order + [k]) == SumSizes(groups, order) + |g|
  {
    assert (order + [k])[..|order|] == order;
    SumSizesUnchanged(groups, groups[k := g], order);
  }

  /** Groups filed under exactly `keys`, each holding the matching items among the first n. */
  ghost predicate Filed(data: seq<Row>, n: nat, groups: map<string, seq<Row>>, order: seq<string>, keys: set<string>)
    requires n <= |data|
  {
    && groups.Keys == keys
    && Distinct(order) && (forall k :: k in order <==> k in groups)
    && (forall k :: k in groups ==> groups[k] == Filter(data[..n], HasName(k)))
    && SumSizes(groups, order) == Count(data[..n], NamedVisit)
  }

  /** What the grouping reduce has established after its first n items. */
  ghost predicate Grouped(data: seq<Row>, n: nat, groups: map<string, seq<Row>>, order: seq<string>)
    requires n <= |data|
  {
    Filed(data, n, groups, order, ChurchList.NameKeys(data[..n]))
  }

  /**
   * The `uniqueChurches` reduce of this card: every visited, named item is
   * pushed onto the list filed under its name. `order` is the keys in
   * insertion order, which `Object.entries` follows.
   */
  method GroupByChurch(data: seq<Row>) returns (groups: map<string, seq<Row>>, order: seq<string>)
    ensures groups.Keys == ChurchList.NameKeys(data)
    ensures Distinct(order) && forall k :: k in order <==> k in groups
    ensures forall k :: k in groups ==> groups[k] == Filter(data, HasName(k)) && |groups[k]| > 0
    ensures SumSizes(groups, order) == Count(data, NamedVisit)
    ensures order == FirstKeys(data, NamedVisit, ChurchList.NameKey)
  {
    groups, order := map[], [];
    for i := 0 to |data|
      invariant Grouped(data, i, groups, order)
      invariant order == FirstKeys(data[..i], NamedVisit, ChurchList.NameKey)
    {
      var item := data[i];
      FirstKeysStep(data, i, NamedVisit, ChurchList.NameKey);
      if NamedVisit(item) {
        var churchName := ChurchList.NameKey(item);
        if churchName !in groups {
          GroupNew(data, i, groups, order);
          groups := groups[churchName := []];
          order := order + [churchName];
        } else {
          GroupExisting(data, i, groups, order);
        }
        GroupPush(data, i, groups, order);
        groups := groups[churchName := groups[churchName] + [item]];
      } else {
        GroupSkip(data, i, groups, order);
      }
    }
    GroupDone(data, groups, order);
    assert data[..|data|] == data;
  }

  /** A name already filed: the keys stay the same. */
  lemma GroupExisting(data: seq<Row>, i: nat, groups: map<string, seq<Row>>, order: seq<string>)
    requires i < |data| && Grouped(data, i, groups, order)
    requires NamedVisit(data[i]) && ChurchList.NameKey(data[i]) in groups
    ensures Filed(data, i, groups, order, ChurchList.NameKeys(data[..i]) + {ChurchList.NameKey(data[i])})
  {
    assert ChurchList.NameKeys(data[..i]) + {ChurchList.NameKey(data[i])} == ChurchList.NameKeys(data[..i]);
  }

  /** After the last item the groups are those of the whole sheet. */
  lemma GroupDone(data: seq<Row>, groups: map<string, seq<Row>>, order: seq<string>)
    requires Grouped(data, |data|, groups, order)
    ensures groups.Keys == ChurchList.NameKeys(data)
    ensures Distinct(order) && forall k :: k in order <==> k in groups
    ensures forall k :: k in groups ==> groups[k] == Filter(data, HasName(k)) && |groups[k]| > 0
    ensures SumSizes(groups, order) == Count(data, NamedVisit)
  {
    assert data[..|data|] == data;
    GroupsNonEmpty(data, groups);
  }

  lemma GroupsNonEmpty(data: seq<Row>, groups: map<string, seq<Row>>)
    requires groups.Keys == ChurchList.NameKeys(data)
    requires forall k :: k in groups ==> groups[k] == Filter(data, HasName(k))
    ensures forall k :: k in groups ==> |groups[k]| > 0
  {
    forall k | k in groups
      ensures |groups[k]| > 0
    {
      KeysOfMembership(data, NamedVisit, ChurchList.NameKey, k);
      var i :| 0 <= i < |data| && NamedVisit(data[i]) && ChurchList.NameKey(data[i]) == k;
      assert HasName(k)(data[i]);
      assert data[i] in groups[k];
    }
  }

  /** Filtering a prefix none of whose items pass gives the empty list. */
  lemma FilterEmpty(s: seq<Row>, p: Row -> bool)
    requires forall j :: 0 <= j < |s| ==> !p(s[j])
    ensures Filter(s, p) == []
  {
    CountNone(s, p);
  }

  /** One more item extends a filtered prefix by that item when it passes. */
  lemma FilterStep(s: seq<Row>, i: nat, p: Row -> bool)
    requires i < |s|
    ensures Filter(s[..i + 1], p) == Filter(s[..i], p) + (if p(s[i]) then [s[i]] else [])
    ensures Count(s[..i + 1], p) == Count(s[..i], p) + (if p(s[i]) then 1 else 0)
  {
    assert s[..i + 1][..i] == s[..i];
  }

  lemma GroupSkip(data: seq<Row>, i: nat, groups: map<string, seq<Row>>, order: seq<string>)
    requires i < |data| && Grouped(data, i, groups, order) && !NamedVisit(data[i])
    ensures Grouped(data, i + 1, groups, order)
  {
    assert data[..i + 1][..i] == data[..i];
    forall k | k in groups
      ensures groups[k] == Filter(data[..i + 1], HasName(k))
    {
      FilterStep(data, i, HasName(k));
    }
    FilterStep(data, i, NamedVisit);
  }

  /** An empty list is filed under a name seen for the first time. */
  lemma GroupNew(data: seq<Row>, i: nat, groups: map<string, seq<Row>>, order: seq<string>)
    requires i < |data| && Grouped(data, i, groups, order)
    requires NamedVisit(data[i]) && ChurchList.NameKey(data[i]) !in groups
    ensures var k := ChurchList.NameKey(data[i]);
      Filed(data, i, groups[k := []], order + [k], ChurchList.NameKeys(data[..i]) + {k})
  {
    var k := ChurchList.NameKey(data[i]);
    KeysOfMembership(data[..i], NamedVisit, ChurchList.NameKey, k);
    forall j | 0 <= j < i
      ensures !HasName(k)(data[..i][j])
    {
      assert data[..i][j] == data[j];
    }
    FilterEmpty(data[..i], HasName(k));
    SumSizesAppend(groups, order, k, []);
  }

  /** Pushing the item onto its name's list keeps every list equal to the filtered items. */
  lemma GroupPush(data: seq<Row>, i: nat, groups: map<string, seq<Row>>, order: seq<string>)
    requires i < |data| && NamedVisit(data[i])
    requires Filed(data, i, groups, order, ChurchList.NameKeys(data[..i]) + {ChurchList.NameKey(data[i])})
    ensures var k := ChurchList.NameKey(data[i]);
      Grouped(data, i + 1, groups[k := groups[k] + [data[i]]], order)
  {
    var k := ChurchList.NameKey(data[i]);
    PushKeys(data, i, groups);
    PushFiltered(data, i, groups);
    PushSum(data, i, groups, order);
  }

  lemma PushKeys(data: seq<Row>, i: nat, groups: map<string, seq<Row>>)
    requires i < |data| && NamedVisit(data[i])
    requires groups.Keys == ChurchList.NameKeys(data[..i]) + {ChurchList.NameKey(data[i])}
    ensures var k := ChurchList.NameKey(data[i]);
      groups[k := groups[k] + [data[i]]].Keys == ChurchList.NameKeys(data[..i + 1])
  {
    assert data[..i + 1][..i] == data[..i];
  }

  lemma PushSum(data: seq<Row>, i: nat, groups: map<string, seq<Row>>, order: seq<string>)
    requires i < |data| && NamedVisit(data[i])
    requires ChurchList.NameKey(data[i]) in order
    requires forall j :: j in order <==> j in groups
    requires Distinct(order) && SumSizes(groups, order) == Count(data[..i], NamedVisit)
    ensures var k := ChurchList.NameKey(data[i]);
      SumSizes(groups[k := groups[k] + [data[i]]], order) == Count(data[..i + 1], NamedVisit)
  {
    FilterStep(data, i, NamedVisit);
    SumSizesGrow(groups, order, ChurchList.NameKey(data[i]), data[i]);
  }

  lemma PushFiltered(data: seq<Row>, i: nat, groups: map<string, seq<Row>>)
    requires i < |data| && NamedVisit(data[i]) && ChurchList.NameKey(data[i]) in groups
    requires forall j :: j in groups ==> groups[j] == Filter(data[..i], HasName(j))
    ensures var k := ChurchList.NameKey(data[i]);
      forall j :: j in groups[k := groups[k] + [data[i]]] ==> groups[k := groups[k] + [data[i]]][j] == Filter(data[..i + 1], HasName(j))
  {
    var k := ChurchList.NameKey(data[i]);
    var groups' := groups[k := groups[k] + [data[i]]];
    forall j | j in groups'
      ensures groups'[j] == Filter(data[..i + 1], HasName(j))
    {
      FilterStep(data, i, HasName(j));
    }
  }

  /** `uniqueChurchCount`: `Object.keys(uniqueChurches).length`. */
  method UniqueChurchCount(data: seq<Row>) returns (n: nat)
    ensures n == |ChurchList.NameKeys(data)|
  {
    var groups, order := GroupByChurch(data);
    n := |groups.Keys|;
  }

  /** The church list keeps one entry per name this card counts, before its search and letter filters. */
  lemma SameAsChurchListEntries(data: seq<Row>, acc: map<string, Row>, order: seq<string>)
    requires acc.Keys == ChurchList.NameKeys(data)
    requires Distinct(order) && forall k :: k in order <==> k in acc
    ensures |ChurchList.Values(acc, order)| == |ChurchList.NameKeys(data)|
  {
    DistinctCardinality(order);
    assert (set x | x in order) == acc.Keys;
  }

  /** `visitsWithoutChurch`: visited items whose Church is falsy. */
  function UnnamedVisit(item: Row): bool {
    Visited(item) && !Truthy(Field(item, ChurchColumn))
  }

  function VisitsWithoutChurch(data: seq<Row>): (r: seq<Row>)
    ensures forall x :: x in r <==> x in data && Visited(x) && !Truthy(Field(x, ChurchColumn))
    ensures |r| == Count(data, UnnamedVisit)
    ensures exists idx :: IndexMap(r, data, idx)
  {
    FilterIsSubsequence(data, UnnamedVisit);
    Filter(data, UnnamedVisit)
  }

  /** Every visit is either filed under a name or listed as unnamed, never both. */
  lemma VisitsPartition(data: seq<Row>)
    ensures VisitTimelineCount(data) == Count(data, NamedVisit) + |VisitsWithoutChurch(data)|
  {
    CountSplit(data, Visited, NamedVisit, UnnamedVisit);
  }

  /** The groups and the unnamed visits together account for every visit, each once. */
  lemma GroupsPartitionVisits(data: seq<Row>, groups: map<string, seq<Row>>, order: seq<string>)
    requires forall k :: k in order ==> k in groups
    requires SumSizes(groups, order) == Count(data, NamedVisit)
    ensures VisitTimelineCount(data) == SumSizes(groups, order) + |VisitsWithoutChurch(data)|
  {
    VisitsPartition(data);
  }

  /** The displayed Difference is at least the number of unnamed visits, and so never negative. */
  lemma DifferenceNonNegative(data: seq<Row>)
    ensures VisitTimelineCount(data) - |ChurchList.NameKeys(data)| >= |VisitsWithoutChurch(data)| >= 0
  {
    VisitsPartition(data);
    KeysOfBound(data, NamedVisit, ChurchList.NameKey);
  }

  // Names visited more than once

  type Entry = (string, seq<Row>)

  /** `Object.entries(uniqueChurches)`. */
  function Entries(groups: map<string, seq<Row>>, order: seq<string>): (r: seq<Entry>)
    requires forall k :: k in order ==> k in groups
    ensures |r| == |order| && forall i :: 0 <= i < |r| ==> r[i] == (order[i], groups[order[i]])
  {
    seq(|order|, i requires 0 <= i < |order| => (order[i], groups[order[i]]))
  }

  predicate Repeated(e: Entry) {
    |e.1| > 1
  }

  /** `(a, b) => b[1].length - a[1].length`, read as "a may come before b": the larger group first. */
  predicate LargerFirst(a: Entry, b: Entry) {
    |a.1| >= |b.1|
  }

  lemma LargerFirstIsTotalPreorder()
    ensures TotalPreorder(LargerFirst)
  {
  }

  /** `multipleVisits`: the names with more than one visit, the most visited first. */
  function MultipleVisits(groups: map<string, seq<Row>>, order: seq<string>): (r: seq<Entry>)
    requires forall k :: k in order ==> k in groups
    ensures multiset(r) == multiset(Filter(Entries(groups, order), Repeated))
    ensures forall i, j :: 0 <= i < j < |r| ==> |r[i].1| >= |r[j].1|
  {
    LargerFirstIsTotalPreorder();
    InsertionSortSorted(Filter(Entries(groups, order), Repeated), LargerFirst);
    InsertionSort(Filter(Entries(groups, order), Repeated), LargerFirst)
  }

  /** An entry is listed exactly when it is a name's group of more than one visit. */
  lemma MultipleVisitsMembers(groups: map<string, seq<Row>>, order: seq<string>, e: Entry)
    requires forall k :: k in order <==> k in groups
    ensures e in MultipleVisits(groups, order) <==> e.0 in groups && e.1 == groups[e.0] && |e.1| > 1
  {
    var entries := Entries(groups, order);
    assert e in MultipleVisits(groups, order) <==> e in multiset(MultipleVisits(groups, order));
    assert e in Filter(entries, Repeated) <==> e in multiset(Filter(entries, Repeated));
    if e.0 in groups && e.1 == groups[e.0] {
      var i :| 0 <= i < |order| && order[i] == e.0;
      assert entries[i] == e;
    }
  }

  // The preview lists

  /** `.slice(0, 5)`: the rows listed on the card. */
  function Preview<T>(s: seq<T>): (r: seq<T>)
    ensures |r| <= 5 && r <= s
    ensures |s| <= 5 ==> r == s
  {
    if |s| <= 5 then s else s[..5]
  }

  /** The "...and N more" line: present only past five rows. */
  function MoreNote(n: nat): (r: Option<nat>)
    ensures r.Some? <==> n > 5
    ensures r.Some? ==> r.value > 0 && r.value + 5 == n
  {
    if n > 5 then Some(n - 5) else None
  }

  /** Every row is either listed or counted in the "more" figure. */
  lemma PreviewAccountsForAll<T>(s: seq<T>)
    ensures |Preview(s)| + (if MoreNote(|s|).Some? then MoreNote(|s|).value else 0) == |s|
    ensures MoreNote(|s|).Some? <==> |Preview(s)| < |s|
  {
  }
}

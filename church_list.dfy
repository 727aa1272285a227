/**
 * The "Churches Visited A-Z" list: one entry per visited church name,
 * keeping the most recently dated visit, sorted by name, narrowed by a
 * search term and a first-letter filter.
 */
module ChurchList {
  import opened Wrappers
  import opened Text
  import opened Cells
  import opened Dates
  import opened Seqs
  import opened Sorting

  /** `acc[churchName]`: the Church value as a property key, exact and case-sensitive. */
  function NameKey(item: Row): string {
    JsString(Field(item, ChurchColumn))
  }

  /** The names of the considered items, as a reference definition. */
  function NameKeys(data: seq<Row>): set<string> {
    KeysOf(data, NamedVisit, NameKey)
  }

  /** `new Date(acc[churchName]['Visit Date'] || '1900-01-01')`. */
  function StoredDate(entry: Row, parse: DateParser): (r: Option<Moment>)
    ensures Truthy(Field(entry, VisitDateColumn)) ==> r == parse(Field(entry, VisitDateColumn))
    ensures !Truthy(Field(entry, VisitDateColumn)) ==> r == parse(Str("1900-01-01"))
  {
    var d := Field(entry, VisitDateColumn);
    parse(if Truthy(d) then d else Str("1900-01-01"))
  }

  /**
   * The item replaces the stored entry: it has a Visit Date, and that date
   * is strictly after the stored entry's date (both must be valid dates).
   */
  predicate Supersedes(item: Row, entry: Row, parse: DateParser)
    ensures Supersedes(item, entry, parse) ==>
      StoredDate(item, parse) == parse(Field(item, VisitDateColumn)) && After(StoredDate(item, parse), StoredDate(entry, parse))
    ensures Supersedes(item, entry, parse) ==> item != entry
  {
    Truthy(Field(item, VisitDateColumn)) && After(parse(Field(item, VisitDateColumn)), StoredDate(entry, parse))
  }

  /**
   * A stored entry without a Visit Date stands for 1900-01-01: any item
   * replaces it exactly when the item's own date is valid and later than that.
   */
  lemma UndatedEntryYields(item: Row, entry: Row, parse: DateParser)
    requires !Truthy(Field(entry, VisitDateColumn))
    ensures Supersedes(item, entry, parse) <==>
      Truthy(Field(item, VisitDateColumn)) && After(parse(Field(item, VisitDateColumn)), parse(Str("1900-01-01")))
  {
  }

  /** Position i holds the first considered item with its name. */
  predicate FirstOfName(data: seq<Row>, i: int) {
    0 <= i < |data| && NamedVisit(data[i])
    && forall j :: 0 <= j < i ==> !(NamedVisit(data[j]) && NameKey(data[j]) == NameKey(data[i]))
  }

  /** Every stored entry is a considered item of the data, filed under its own name. */
  ghost predicate FromData(data: seq<Row>, acc: map<string, Row>) {
    forall k :: k in acc ==> acc[k] in data && NamedVisit(acc[k]) && NameKey(acc[k]) == k
  }

  /** No considered item among the first n is later than the entry stored for its name. */
  ghost predicate Latest(data: seq<Row>, n: nat, acc: map<string, Row>, parse: DateParser)
    requires n <= |data|
  {
    forall j :: 0 <= j < n && NamedVisit(data[j]) ==>
      NameKey(data[j]) in acc && !Supersedes(data[j], acc[NameKey(data[j])], parse)
  }

  /** The entry stored for a name is its first item, or one that replaced it. */
  ghost predicate FirstReplaced(data: seq<Row>, n: nat, acc: map<string, Row>, parse: DateParser)
    requires n <= |data|
  {
    forall j :: 0 <= j < n && FirstOfName(data, j) ==>
      NameKey(data[j]) in acc && (acc[NameKey(data[j])] == data[j] || Supersedes(acc[NameKey(data[j])], data[j], parse))
  }

  /** One step of the reduce, seen from a single name k: what is stored under k after item. */
  function StoredAfter(prev: Option<Row>, item: Row, k: string, parse: DateParser): Option<Row> {
    if NamedVisit(item) && NameKey(item) == k && (prev.None? || Supersedes(item, prev.value, parse)) then Some(item) else prev
  }

  /** The entry the reduce stores under k after the items of s, if any: a reference definition per name. */
  function KeptFor(s: seq<Row>, k: string, parse: DateParser): Option<Row> {
    if s == [] then None else StoredAfter(KeptFor(s[..|s| - 1], k, parse), s[|s| - 1], k, parse)
  }

  /** Position j holds a considered item with the same name as position f. */
  predicate SameName(data: seq<Row>, j: int, f: int)
    requires 0 <= j < |data| && 0 <= f < |data|
  {
    NamedVisit(data[j]) && NameKey(data[j]) == NameKey(data[f])
  }

  /**
   * Among the first n items, data[p] is the entry kept for the name first
   * seen at f: the first item itself or one later than it, later than none
   * of its namesakes, and later than every earlier namesake that is later
   * than the first item (so on equal dates the earliest one wins).
   */
  ghost predicate KeptAt(data: seq<Row>, n: nat, f: int, p: int, parse: DateParser)
    requires n <= |data|
  {
    && FirstOfName(data, f) && f < n && 0 <= p < n && SameName(data, p, f)
    && (p != f ==> Supersedes(data[p], data[f], parse))
    && (forall j :: 0 <= j < n && SameName(data, j, f) ==> !Supersedes(data[j], data[p], parse))
    && (forall q :: 0 <= q < p && SameName(data, q, f) && Supersedes(data[q], data[f], parse) ==> Supersedes(data[p], data[q], parse))
  }

  /** The stored entries agree with the per-name reference after the first n items. */
  ghost predicate Agrees(data: seq<Row>, n: nat, acc: map<string, Row>, parse: DateParser)
    requires n <= |data|
  {
    forall k :: KeptFor(data[..n], k, parse) == (if k in acc then Some(acc[k]) else None)
  }

  /** What the reduce has established after its first n items. */
  ghost predicate Kept(data: seq<Row>, n: nat, acc: map<string, Row>, order: seq<string>, parse: DateParser)
    requires n <= |data|
  {
    && acc.Keys == NameKeys(data[..n])
    && Distinct(order) && (forall k :: k in order <==> k in acc)
    && FromData(data, acc)
    && Latest(data, n, acc, parse)
    && FirstReplaced(data, n, acc, parse)
  }

  /**
   * The `uniqueChurches` reduce. `acc` is the accumulator object and
   * `order` its keys in insertion order, which is what `Object.values`
   * follows.
   */
  method UniqueChurches(data: seq<Row>, parse: DateParser) returns (acc: map<string, Row>, order: seq<string>)
    ensures acc.Keys == NameKeys(data)
    ensures Distinct(order) && forall k :: k in order <==> k in acc
    ensures forall k :: k in acc ==> acc[k] in data && NamedVisit(acc[k]) && NameKey(acc[k]) == k
    ensures forall i :: 0 <= i < |data| && NamedVisit(data[i]) ==>
      NameKey(data[i]) in acc && !Supersedes(data[i], acc[NameKey(data[i])], parse)
    ensures forall i :: FirstOfName(data, i) ==>
      NameKey(data[i]) in acc && (acc[NameKey(data[i])] == data[i] || Supersedes(acc[NameKey(data[i])], data[i], parse))
    ensures forall k :: KeptFor(data, k, parse) == (if k in acc then Some(acc[k]) else None)
    ensures forall f :: FirstOfName(data, f) ==> exists p :: KeptAt(data, |data|, f, p, parse) && acc[NameKey(data[f])] == data[p]
    ensures order == FirstKeys(data, NamedVisit, NameKey)
  {
    acc, order := map[], [];
    for i := 0 to |data|
      invariant Kept(data, i, acc, order, parse)
      invariant Agrees(data, i, acc, parse)
      invariant order == FirstKeys(data[..i], NamedVisit, NameKey)
    {
      var item := data[i];
      FirstKeysStep(data, i, NamedVisit, NameKey);
      if NamedVisit(item) {
        var churchName := NameKey(item);
        if churchName !in acc {
          StepAdd(data, i, acc, order, parse);
          AgreesStep(data, i, acc, acc[churchName := item], parse);
          order := order + [churchName];
          acc := acc[churchName := item];
        } else if Supersedes(item, acc[churchName], parse) {
          StepReplace(data, i, acc, order, parse);
          AgreesStep(data, i, acc, acc[churchName := item], parse);
          acc := acc[churchName := item];
        } else {
          StepSkip(data, i, acc, order, parse);
          AgreesStep(data, i, acc, acc, parse);
        }
      } else {
        StepSkip(data, i, acc, order, parse);
        AgreesStep(data, i, acc, acc, parse);
      }
    }
    assert data[..|data|] == data;
    forall f | FirstOfName(data, f)
      ensures exists p :: KeptAt(data, |data|, f, p, parse) && acc[NameKey(data[f])] == data[p]
    {
      var p := KeptForIndex(data, |data|, f, parse);
    }
  }

  /** The per-name reference follows the reduce's step. */
  lemma AgreesStep(data: seq<Row>, i: nat, acc: map<string, Row>, acc': map<string, Row>, parse: DateParser)
    requires i < |data| && Agrees(data, i, acc, parse)
    requires acc' == if NamedVisit(data[i]) && (NameKey(data[i]) !in acc || Supersedes(data[i], acc[NameKey(data[i])], parse))
      then acc[NameKey(data[i]) := data[i]] else acc
    ensures Agrees(data, i + 1, acc', parse)
  {
    assert data[..i + 1][..i] == data[..i];
    forall k
      ensures KeptFor(data[..i + 1], k, parse) == (if k in acc' then Some(acc'[k]) else None)
    {
      assert KeptFor(data[..i + 1], k, parse) == StoredAfter(KeptFor(data[..i], k, parse), data[i], k, parse);
    }
  }

  /** No namesake among the first n items: nothing is stored. */
  lemma {:induction false} KeptForAbsent(data: seq<Row>, n: nat, k: string, parse: DateParser)
    requires n <= |data|
    requires forall j :: 0 <= j < n ==> !(NamedVisit(data[j]) && NameKey(data[j]) == k)
    ensures KeptFor(data[..n], k, parse) == None
  {
    if n > 0 {
      assert data[..n][..n - 1] == data[..n - 1];
      KeptForAbsent(data, n - 1, k, parse);
    }
  }

  /** The item kept for a name, once its first item has been seen, is the one KeptAt describes. */
  lemma {:induction false} KeptForIndex(data: seq<Row>, n: nat, f: int, parse: DateParser) returns (p: int)
    requires n <= |data| && FirstOfName(data, f) && f < n
    ensures KeptAt(data, n, f, p, parse) && KeptFor(data[..n], NameKey(data[f]), parse) == Some(data[p])
    decreases n
  {
    var k := NameKey(data[f]);
    assert data[..n][..n - 1] == data[..n - 1];
    assert KeptFor(data[..n], k, parse) == StoredAfter(KeptFor(data[..n - 1], k, parse), data[n - 1], k, parse);
    if n == f + 1 {
      KeptForAbsent(data, f, k, parse);
      p := f;
      AfterIrreflexive(parse(Field(data[f], VisitDateColumn)));
    } else {
      var p' := KeptForIndex(data, n - 1, f, parse);
      var x := data[n - 1];
      if SameName(data, n - 1, f) && Supersedes(x, data[p'], parse) {
        p := n - 1;
        KeptReplaced(data, n, f, p', parse);
      } else {
        p := p';
      }
    }
  }

  /** A namesake later than the kept entry takes its place and keeps KeptAt. */
  lemma KeptReplaced(data: seq<Row>, n: nat, f: int, p': int, parse: DateParser)
    requires 0 < n <= |data| && KeptAt(data, n - 1, f, p', parse)
    requires SameName(data, n - 1, f) && Supersedes(data[n - 1], data[p'], parse)
    ensures KeptAt(data, n, f, n - 1, parse)
  {
    var x := data[n - 1];
    var dx := parse(Field(x, VisitDateColumn));
    assert StoredDate(x, parse) == dx;
    if p' != f {
      assert StoredDate(data[p'], parse) == parse(Field(data[p'], VisitDateColumn));
      AfterTransitive(dx, StoredDate(data[p'], parse), StoredDate(data[f], parse));
    }
    forall j | 0 <= j < n && SameName(data, j, f)
      ensures !Supersedes(data[j], x, parse)
    {
      if j == n - 1 {
        AfterIrreflexive(dx);
      } else if Supersedes(data[j], x, parse) {
        AfterTransitive(parse(Field(data[j], VisitDateColumn)), dx, StoredDate(data[p'], parse));
        assert false;
      }
    }
    forall q | 0 <= q < n - 1 && SameName(data, q, f) && Supersedes(data[q], data[f], parse)
      ensures Supersedes(x, data[q], parse)
    {
      assert !Supersedes(data[q], data[p'], parse);
      assert StoredDate(data[q], parse) == parse(Field(data[q], VisitDateColumn));
    }
  }

  /** KeptAt names one position only: the kept entry is pinned down. */
  lemma KeptAtUnique(data: seq<Row>, n: nat, f: int, p: int, p': int, parse: DateParser)
    requires n <= |data| && KeptAt(data, n, f, p, parse) && KeptAt(data, n, f, p', parse)
    ensures p == p'
  {
  }

  /** On a tie for the latest date the earliest of the tied items is the one kept. */
  lemma KeptEarliestOnTies(data: seq<Row>, n: nat, f: int, p: int, j: int, parse: DateParser)
    requires n <= |data| && KeptAt(data, n, f, p, parse)
    requires 0 <= j < n && SameName(data, j, f) && Truthy(Field(data[j], VisitDateColumn))
    requires parse(Field(data[j], VisitDateColumn)).Some? && StoredDate(data[p], parse).Some?
    requires parse(Field(data[j], VisitDateColumn)).value.stamp == StoredDate(data[p], parse).value.stamp
    ensures p <= j
  {
  }

  /** An item that is not considered, or not later than the stored entry, changes nothing. */
  lemma StepSkip(data: seq<Row>, i: nat, acc: map<string, Row>, order: seq<string>, parse: DateParser)
    requires i < |data| && Kept(data, i, acc, order, parse)
    requires NamedVisit(data[i]) ==> NameKey(data[i]) in acc && !Supersedes(data[i], acc[NameKey(data[i])], parse)
    ensures Kept(data, i + 1, acc, order, parse)
  {
    assert data[..i + 1] == data[..i] + [data[i]];
    assert data[..i + 1][..i] == data[..i];
    if FirstOfName(data, i) {
      FirstIsNew(data, i);
    }
  }

  /** The first item with a name finds no entry stored under it. */
  lemma FirstIsNew(data: seq<Row>, i: nat)
    requires FirstOfName(data, i)
    ensures NameKey(data[i]) !in NameKeys(data[..i])
  {
    KeysOfMembership(data[..i], NamedVisit, NameKey, NameKey(data[i]));
    forall j | 0 <= j < i
      ensures data[..i][j] == data[j]
    {
    }
  }

  /** The first item with a new name is stored under that name and its key appended. */
  lemma StepAdd(data: seq<Row>, i: nat, acc: map<string, Row>, order: seq<string>, parse: DateParser)
    requires i < |data| && Kept(data, i, acc, order, parse)
    requires NamedVisit(data[i]) && NameKey(data[i]) !in acc
    ensures Kept(data, i + 1, acc[NameKey(data[i]) := data[i]], order + [NameKey(data[i])], parse)
  {
    var k := NameKey(data[i]);
    assert data[..i + 1][..i] == data[..i];
    assert NameKeys(data[..i + 1]) == NameKeys(data[..i]) + {k};
    KeysOfMembership(data[..i], NamedVisit, NameKey, k);
    forall j | 0 <= j < i && NamedVisit(data[j])
      ensures NameKey(data[j]) != k
    {
      assert data[..i][j] == data[j];
    }
    AddLatest(data, i, acc, parse);
    AddFirst(data, i, acc, parse);
  }

  lemma AddLatest(data: seq<Row>, i: nat, acc: map<string, Row>, parse: DateParser)
    requires i < |data| && Latest(data, i, acc, parse) && NamedVisit(data[i]) && NameKey(data[i]) !in acc
    ensures Latest(data, i + 1, acc[NameKey(data[i]) := data[i]], parse)
  {
    AfterIrreflexive(parse(Field(data[i], VisitDateColumn)));
  }

  lemma AddFirst(data: seq<Row>, i: nat, acc: map<string, Row>, parse: DateParser)
    requires i < |data| && FirstReplaced(data, i, acc, parse) && NamedVisit(data[i])
    requires forall j :: 0 <= j < i && NamedVisit(data[j]) ==> NameKey(data[j]) != NameKey(data[i])
    ensures FirstReplaced(data, i + 1, acc[NameKey(data[i]) := data[i]], parse)
  {
  }

  /** A later-dated item replaces the stored entry of its name. */
  lemma StepReplace(data: seq<Row>, i: nat, acc: map<string, Row>, order: seq<string>, parse: DateParser)
    requires i < |data| && Kept(data, i, acc, order, parse)
    requires NamedVisit(data[i]) && NameKey(data[i]) in acc && Supersedes(data[i], acc[NameKey(data[i])], parse)
    ensures Kept(data, i + 1, acc[NameKey(data[i]) := data[i]], order, parse)
  {
    var acc' := acc[NameKey(data[i]) := data[i]];
    assert data[..i + 1] == data[..i] + [data[i]];
    assert acc'.Keys == NameKeys(data[..i + 1]) by {
      assert data[..i + 1][..i] == data[..i];
    }
    ReplaceFromData(data, i, acc);
    ReplaceLatest(data, i, acc, parse);
    ReplaceFirst(data, i, acc, parse);
  }

  lemma ReplaceFromData(data: seq<Row>, i: nat, acc: map<string, Row>)
    requires i < |data| && FromData(data, acc) && NamedVisit(data[i])
    ensures FromData(data, acc[NameKey(data[i]) := data[i]])
  {
  }

  lemma ReplaceLatest(data: seq<Row>, i: nat, acc: map<string, Row>, parse: DateParser)
    requires i < |data| && Latest(data, i, acc, parse)
    requires NamedVisit(data[i]) && NameKey(data[i]) in acc && Supersedes(data[i], acc[NameKey(data[i])], parse)
    ensures Latest(data, i + 1, acc[NameKey(data[i]) := data[i]], parse)
  {
    var item, key := data[i], NameKey(data[i]);
    var stored, acc' := acc[key], acc[key := item];
    forall j | 0 <= j < i + 1 && NamedVisit(data[j])
      ensures NameKey(data[j]) in acc' && !Supersedes(data[j], acc'[NameKey(data[j])], parse)
    {
      if j == i {
        AfterIrreflexive(parse(Field(item, VisitDateColumn)));
      } else if NameKey(data[j]) == key && Supersedes(data[j], item, parse) {
        AfterTransitive(parse(Field(data[j], VisitDateColumn)), parse(Field(item, VisitDateColumn)), StoredDate(stored, parse));
      }
    }
  }

  lemma ReplaceFirst(data: seq<Row>, i: nat, acc: map<string, Row>, parse: DateParser)
    requires i < |data| && FirstReplaced(data, i, acc, parse)
    requires NamedVisit(data[i]) && NameKey(data[i]) in acc && Supersedes(data[i], acc[NameKey(data[i])], parse)
    ensures FirstReplaced(data, i + 1, acc[NameKey(data[i]) := data[i]], parse)
  {
    var item, key := data[i], NameKey(data[i]);
    var stored, acc' := acc[key], acc[key := item];
    forall j | 0 <= j < i + 1 && FirstOfName(data, j)
      ensures NameKey(data[j]) in acc' && (acc'[NameKey(data[j])] == data[j] || Supersedes(acc'[NameKey(data[j])], data[j], parse))
    {
      if j < i && NameKey(data[j]) == key && stored != data[j] {
        AfterTransitive(parse(Field(item, VisitDateColumn)), StoredDate(stored, parse), StoredDate(data[j], parse));
      }
    }
  }

  /** `Object.values(uniqueChurches)`. */
  function Values(acc: map<string, Row>, order: seq<string>): (r: seq<Row>)
    requires forall k :: k in order ==> k in acc
    ensures |r| == |order| && forall i :: 0 <= i < |r| ==> r[i] == acc[order[i]]
  {
    seq(|order|, i requires 0 <= i < |order| => acc[order[i]])
  }

  /** `a.Church.localeCompare(b.Church) <= 0`: a may precede b. */
  predicate NameOrder(a: Row, b: Row) {
    !Less(NameKey(b), NameKey(a))
  }

  lemma NameOrderIsTotalPreorder()
    ensures TotalPreorder(NameOrder)
  {
    forall a: Row, b: Row
      ensures NameOrder(a, b) || NameOrder(b, a)
    {
      if Less(NameKey(b), NameKey(a)) {
        LessAsymmetric(NameKey(b), NameKey(a));
      }
    }
    forall a: Row, b: Row, c: Row | NameOrder(a, b) && NameOrder(b, c)
      ensures NameOrder(a, c)
    {
      LessTotal(NameKey(a), NameKey(b));
      LessTotal(NameKey(b), NameKey(c));
      if Less(NameKey(c), NameKey(a)) {
        if NameKey(a) == NameKey(b) {
        } else if NameKey(b) == NameKey(c) {
        } else {
          LessTransitive(NameKey(a), NameKey(b), NameKey(c));
          LessAsymmetric(NameKey(a), NameKey(c));
        }
      }
    }
  }

  /** Every entry's Church is a string, as the component's prop types declare; string methods throw on anything else. */
  predicate TextNames(entries: seq<Row>) {
    forall i :: 0 <= i < |entries| ==> Field(entries[i], ChurchColumn).Str?
  }

  /** `sortedChurches`: the kept entries, ascending by name. */
  function SortedChurches(values: seq<Row>): (r: seq<Row>)
    requires TextNames(values)
    ensures multiset(r) == multiset(values)
    ensures SortedBy(r, NameOrder)
  {
    NameOrderIsTotalPreorder();
    InsertionSortSorted(values, NameOrder);
    InsertionSort(values, NameOrder)
  }

  /** Names are the accumulator's keys, so no two kept entries share one. */
  predicate DistinctNames(entries: seq<Row>) {
    forall i, j :: 0 <= i < j < |entries| ==> NameKey(entries[i]) != NameKey(entries[j])
  }

  lemma ValuesHaveDistinctNames(acc: map<string, Row>, order: seq<string>)
    requires Distinct(order) && forall k :: k in order ==> k in acc && NameKey(acc[k]) == k
    ensures DistinctNames(Values(acc, order))
  {
  }

  /** With distinct names, the sorted list is strictly ascending by name. */
  lemma SortedChurchesAscending(values: seq<Row>)
    requires TextNames(values) && DistinctNames(values)
    ensures forall i, j :: 0 <= i < j < |SortedChurches(values)| ==>
      Less(NameKey(SortedChurches(values)[i]), NameKey(SortedChurches(values)[j]))
  {
    var r := SortedChurches(values);
    assert Distinct(values);
    PermutationKeepsDistinct(values, r);
    forall i, j | 0 <= i < j < |r|
      ensures Less(NameKey(r[i]), NameKey(r[j]))
    {
      assert r[i] in multiset(values) && r[j] in multiset(values);
      var a :| 0 <= a < |values| && values[a] == r[i];
      var b :| 0 <= b < |values| && values[b] == r[j];
      assert a != b;
      assert NameKey(r[i]) != NameKey(r[j]);
      LessTotal(NameKey(r[i]), NameKey(r[j]));
    }
  }

  /** `s.charAt(0).toUpperCase()`. */
  function FirstUpper(s: string): string {
    if s == [] then [] else [UpperChar(s[0])]
  }

  /**
   * `||` stops at a name that matches; otherwise the Address is read, and it
   * must be a string or be absent so that `?.` stops.
   */
  predicate SearchableAddresses(entries: seq<Row>, searchTerm: string) {
    forall i :: 0 <= i < |entries| ==>
      || Contains(Lower(NameKey(entries[i])), Lower(searchTerm))
      || Field(entries[i], AddressColumn).Str?
      || Nullish(Field(entries[i], AddressColumn))
  }

  /** Case-insensitive substring of the Church name or of the Address. */
  predicate MatchesSearch(church: Row, searchTerm: string) {
    var address := Field(church, AddressColumn);
    Contains(Lower(NameKey(church)), Lower(searchTerm))
    || (address.Str? && Contains(Lower(address.s), Lower(searchTerm)))
  }

  /** No letter selected, or the name's upper-cased first character is the selected letter. */
  predicate MatchesLetter(church: Row, selectedLetter: string) {
    selectedLetter == "" || FirstUpper(NameKey(church)) == selectedLetter
  }

  function ListFilter(searchTerm: string, selectedLetter: string): Row -> bool {
    church => MatchesSearch(church, searchTerm) && MatchesLetter(church, selectedLetter)
  }

  /** `filteredChurches`. */
  function FilteredChurches(sortedChurches: seq<Row>, searchTerm: string, selectedLetter: string): (r: seq<Row>)
    requires TextNames(sortedChurches) && SearchableAddresses(sortedChurches, searchTerm)
    ensures forall c :: c in r <==> c in sortedChurches && MatchesSearch(c, searchTerm) && MatchesLetter(c, selectedLetter)
    ensures |r| == Count(sortedChurches, ListFilter(searchTerm, selectedLetter))
    ensures exists idx :: IndexMap(r, sortedChurches, idx)
    ensures SortedBy(sortedChurches, NameOrder) ==> SortedBy(r, NameOrder)
  {
    FilterIsSubsequence(sortedChurches, ListFilter(searchTerm, selectedLetter));
    FilterKeepsOrder(sortedChurches, ListFilter(searchTerm, selectedLetter), NameOrder);
    Filter(sortedChurches, ListFilter(searchTerm, selectedLetter))
  }

  /** With an empty search and no letter selected the whole sorted list is shown. */
  lemma NoFilterShowsAll(sortedChurches: seq<Row>)
    requires TextNames(sortedChurches)
    ensures FilteredChurches(sortedChurches, "", "") == sortedChurches
  {
    forall i | 0 <= i < |sortedChurches|
      ensures ListFilter("", "")(sortedChurches[i])
    {
      assert Lower("") == "";
      assert Contains(Lower(NameKey(sortedChurches[i])), "");
    }
    FilterAll(sortedChurches, ListFilter("", ""));
  }

  /** The first-letter predicate as a function value. */
  function HasNameLetter(l: string): Row -> bool {
    church => Truthy(Field(church, ChurchColumn)) && FirstUpper(NameKey(church)) == l
  }

  /** `array.sort()` on strings: a may precede b. */
  predicate LetterOrder(a: string, b: string) {
    !Less(b, a)
  }

  lemma LetterOrderIsTotalPreorder()
    ensures TotalPreorder(LetterOrder)
  {
    forall a: string, b: string
      ensures LetterOrder(a, b) || LetterOrder(b, a)
    {
      if Less(b, a) {
        LessAsymmetric(b, a);
      }
    }
    forall a: string, b: string, c: string | LetterOrder(a, b) && LetterOrder(b, c)
      ensures LetterOrder(a, c)
    {
      LessTotal(a, b);
      LessTotal(b, c);
      if Less(c, a) && a != b && b != c {
        LessTransitive(a, b, c);
        LessAsymmetric(a, c);
      }
    }
  }

  /**
   * `getAvailableLetters`: the upper-cased first characters of the names,
   * each once, in ascending order.
   */
  method AvailableLetters(sortedChurches: seq<Row>) returns (letters: seq<string>)
    requires TextNames(sortedChurches)
    ensures forall i, j :: 0 <= i < j < |letters| ==> Less(letters[i], letters[j])
    ensures forall l :: l in letters <==> exists i :: 0 <= i < |sortedChurches| && HasNameLetter(l)(sortedChurches[i])
  {
    // The Set, as its elements in insertion order.
    var inserted: seq<string> := [];
    for i := 0 to |sortedChurches|
      invariant Distinct(inserted)
      invariant forall l :: l in inserted <==> exists j :: 0 <= j < i && HasNameLetter(l)(sortedChurches[j])
    {
      var church := sortedChurches[i];
      if Truthy(Field(church, ChurchColumn)) {
        var letter := FirstUpper(NameKey(church));
        if letter !in inserted {
          inserted := inserted + [letter];
        }
      }
    }
    LetterOrderIsTotalPreorder();
    letters := InsertionSort(inserted, LetterOrder);
    InsertionSortSorted(inserted, LetterOrder);
    PermutationKeepsDistinct(inserted, letters);
    forall i, j | 0 <= i < j < |letters|
      ensures Less(letters[i], letters[j])
    {
      LessTotal(letters[i], letters[j]);
    }
    forall l
      ensures l in letters <==> l in inserted
    {
      assert l in letters <==> l in multiset(letters);
    }
  }

  /** Every offered letter selects at least one listed church when the search is empty. */
  lemma OfferedLetterSelectsSomething(sortedChurches: seq<Row>, l: string, i: nat)
    requires TextNames(sortedChurches)
    requires i < |sortedChurches| && HasNameLetter(l)(sortedChurches[i]) && l != ""
    ensures sortedChurches[i] in FilteredChurches(sortedChurches, "", l)
  {
    assert Lower("") == "";
    assert Contains(Lower(NameKey(sortedChurches[i])), "");
  }
}

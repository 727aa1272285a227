/**
 * The Contact Management card: one contact per item that names a
 * contact, its status, its recent interactions, the four quick stats, and
 * the label each status is displayed with.
 */
module ContactManagement {
  import opened Wrappers
  import opened Text
  import opened Cells
  import opened Dates
  import opened Seqs

  datatype Status = WaitingResponse | Responsive | FollowUpNeeded

  /** The status strings the component uses as keys and labels. */
  function StatusName(st: Status): string {
    match st
    case WaitingResponse => "waiting-response"
    case Responsive => "responsive"
    case FollowUpNeeded => "follow-up-needed"
  }

  /** `getContactStatus`: the Visit Date is tested first, then `Visit?` against the exact string 'Yes'. */
  function ContactStatus(item: Row): (st: Status)
    ensures st == WaitingResponse <==> !Truthy(Field(item, VisitDateColumn))
    ensures st == Responsive <==> Truthy(Field(item, VisitDateColumn)) && Field(item, VisitColumn) == Str("Yes")
  {
    if !Truthy(Field(item, VisitDateColumn)) then WaitingResponse
    else if Field(item, VisitColumn) == Str("Yes") then Responsive
    else FollowUpNeeded
  }

  /** A row the other components count as visited is never 'responsive': they test for true or 'TRUE', this one for 'Yes'. */
  lemma VisitedIsNeverResponsive(item: Row)
    requires Visited(item)
    ensures ContactStatus(item) != Responsive
    ensures Truthy(Field(item, VisitDateColumn)) ==> ContactStatus(item) == FollowUpNeeded
  {
  }

  datatype Interaction = Interaction(kind: string, date: Cell, notes: Cell)

  datatype Contact = Contact(
    name: Cell, church: Cell, role: string, lastContact: Cell, status: Status,
    email: string, phone: string, recentInteractions: seq<Interaction>)

  const NoContact := Str("No Contact Listed")

  /** The record built from one item; role, email and phone are fixed placeholders. */
  function ToContact(item: Row): (c: Contact)
    ensures Listed(c) <==> HasContact(item)
    ensures c.status == ContactStatus(item)
  {
    var contact := Field(item, ContactColumn);
    var notes := Field(item, VisitNotesColumn);
    Contact(
      if Truthy(contact) then contact else NoContact,
      Field(item, ChurchColumn), "Contact", Field(item, VisitDateColumn), ContactStatus(item),
      "email@example.com", "phone number",
      if Truthy(notes) then [Interaction("visit", Field(item, VisitDateColumn), notes)] else [])
  }

  /** One 'visit' interaction, carrying the item's date and notes, exactly when it has notes. */
  lemma InteractionsMeaning(item: Row)
    ensures |ToContact(item).recentInteractions| <= 1
    ensures |ToContact(item).recentInteractions| == 1 <==> Truthy(Field(item, VisitNotesColumn))
    ensures forall x :: x in ToContact(item).recentInteractions ==>
      x == Interaction("visit", Field(item, VisitDateColumn), Field(item, VisitNotesColumn))
  {
  }

  function ContactsOf(rows: seq<Row>): (r: seq<Contact>)
    ensures |r| == |rows| && forall i :: 0 <= i < |rows| ==> r[i] == ToContact(rows[i])
  {
    seq(|rows|, i requires 0 <= i < |rows| => ToContact(rows[i]))
  }

  predicate Listed(c: Contact) {
    c.name != NoContact
  }

  /** `contacts`: the records whose name is not the 'No Contact Listed' placeholder. */
  function Contacts(data: seq<Row>): (r: seq<Contact>)
    ensures |r| <= |data|
  {
    Filter(ContactsOf(data), Listed)
  }

  /** The item names a contact: truthy, and not literally the placeholder. */
  predicate HasContact(item: Row) {
    Truthy(Field(item, ContactColumn)) && Field(item, ContactColumn) != NoContact
  }

  /** The contacts are, in order, the records of exactly the items that name a contact. */
  lemma {:induction false} ContactsAreNamedItems(data: seq<Row>)
    ensures Contacts(data) == ContactsOf(Filter(data, HasContact))
  {
    if data != [] {
      var prefix, last := data[..|data| - 1], data[|data| - 1];
      ContactsAreNamedItems(prefix);
      assert ContactsOf(data)[..|data| - 1] == ContactsOf(prefix);
      assert Listed(ToContact(last)) == HasContact(last);
      var f := Filter(prefix, HasContact);
      if HasContact(last) {
        assert ContactsOf(f + [last]) == ContactsOf(f) + [ToContact(last)];
      }
    }
  }

  // Quick stats

  function StatusIs(st: Status): Contact -> bool {
    (c: Contact) => c.status == st
  }

  /** `contactDate >= weekAgo`, where `weekAgo` is seven days before now at the same time of day. */
  function NewSince(now: Moment, parse: DateParser): Contact -> bool {
    (c: Contact) => Truthy(c.lastContact) && parse(c.lastContact).Some?
      && parse(c.lastContact).value.stamp >= AddDays(now.stamp, -7)
  }

  datatype Stats = Stats(total: nat, active: nat, needFollowUp: nat, newThisWeek: nat)

  /** `stats`: the waiting contacts are the ones neither active nor needing follow-up. */
  function ContactStats(contacts: seq<Contact>, now: Moment, parse: DateParser): (s: Stats)
    ensures s.total == s.active + s.needFollowUp + Count(contacts, StatusIs(WaitingResponse))
    ensures s.newThisWeek <= s.total
  {
    var notActive := (c: Contact) => c.status != Responsive;
    CountAll(contacts, (c: Contact) => true);
    CountSplit(contacts, (c: Contact) => true, StatusIs(Responsive), notActive);
    CountSplit(contacts, notActive, StatusIs(FollowUpNeeded), StatusIs(WaitingResponse));
    Stats(|contacts|, Count(contacts, StatusIs(Responsive)), Count(contacts, StatusIs(FollowUpNeeded)),
          Count(contacts, NewSince(now, parse)))
  }

  /** A contact without a last-contact date is never new this week; a dated one is new exactly within the last seven days. */
  lemma NewThisWeekMeaning(c: Contact, now: Moment, parse: DateParser)
    ensures !Truthy(c.lastContact) ==> !NewSince(now, parse)(c)
    ensures Truthy(c.lastContact) && parse(c.lastContact).Some? ==>
      (NewSince(now, parse)(c) <==> parse(c.lastContact).value.stamp >= now.stamp - 7 * DayMs)
  {
  }

  // Status labels

  /** `word.charAt(0).toUpperCase() + word.slice(1)`. */
  function Capitalize(w: string): (r: string)
    ensures |r| == |w|
  {
    if w == [] then [] else [UpperChar(w[0])] + w[1..]
  }

  /** `s.split('-')`. */
  function Split(s: string): (r: seq<string>)
    ensures |r| > 0
  {
    if s == [] then [[]]
    else if s[0] == '-' then [[]] + Split(s[1..])
    else var r := Split(s[1..]); [[s[0]] + r[0]] + r[1..]
  }

  function CapitalizeAll(ws: seq<string>): (r: seq<string>)
    ensures |r| == |ws|
  {
    if ws == [] then [] else [Capitalize(ws[0])] + CapitalizeAll(ws[1..])
  }

  /** `.join(' ')`. */
  function Join(ws: seq<string>): string
    requires |ws| > 0
  {
    if |ws| == 1 then ws[0] else ws[0] + " " + Join(ws[1..])
  }

  /** The displayed status label. */
  function Label(s: string): (r: string)
    ensures r == LabelChars(s, true)
  {
    LabelCharsIsSplitJoin(s);
    Join(CapitalizeAll(Split(s)))
  }

  /** A reference reading of the label, character by character: dashes become spaces and each word's first character is upper-cased. */
  function LabelChars(s: string, atStart: bool): (r: string)
    ensures |r| == |s|
  {
    if s == [] then []
    else [if s[0] == '-' then ' ' else if atStart then UpperChar(s[0]) else s[0]] + LabelChars(s[1..], s[0] == '-')
  }

  lemma {:induction false} LabelCharsIsSplitJoin(s: string)
    ensures LabelChars(s, true) == Join(CapitalizeAll(Split(s)))
    ensures var r := Split(s); LabelChars(s, false) == Join([r[0]] + CapitalizeAll(r[1..]))
  {
    if s != [] {
      var q := Split(s[1..]);
      LabelCharsIsSplitJoin(s[1..]);
      if s[0] == '-' {
        assert Split(s) == [[]] + q;
        assert CapitalizeAll(Split(s)) == [[]] + CapitalizeAll(q);
      } else {
        var r := Split(s);
        assert r == [[s[0]] + q[0]] + q[1..];
        JoinConsChar(UpperChar(s[0]), q[0], CapitalizeAll(q[1..]));
        JoinConsChar(s[0], q[0], CapitalizeAll(q[1..]));
        assert r[1..] == q[1..];
        assert CapitalizeAll(r) == [Capitalize(r[0])] + CapitalizeAll(q[1..]);
        assert Capitalize(r[0]) == [UpperChar(s[0])] + q[0];
      }
    }
  }

  /** A character in front of the first word comes out in front of the joined text. */
  lemma JoinConsChar(c: char, w: string, rest: seq<string>)
    ensures Join([[c] + w] + rest) == [c] + Join([w] + rest)
  {
    if rest != [] {
      assert ([[c] + w] + rest)[1..] == rest;
      assert ([w] + rest)[1..] == rest;
    }
  }

  /** Character i of the label: a dash becomes a space, the character after a dash (or the first) is upper-cased, others stay. */
  lemma {:induction false} LabelCharAt(s: string, atStart: bool, i: nat)
    requires i < |s|
    ensures LabelChars(s, atStart)[i] ==
      if s[i] == '-' then ' '
      else if (if i == 0 then atStart else s[i - 1] == '-') then UpperChar(s[i])
      else s[i]
  {
    if i > 0 {
      LabelCharAt(s[1..], s[0] == '-', i - 1);
    }
  }

  /** The label has the status string's length; positions of dashes become spaces, word starts are upper-cased. */
  lemma LabelMeaning(s: string)
    ensures |Label(s)| == |s|
    ensures forall i :: 0 <= i < |s| ==>
      Label(s)[i] == (if s[i] == '-' then ' ' else if i == 0 || s[i - 1] == '-' then UpperChar(s[i]) else s[i])
  {
    LabelCharsIsSplitJoin(s);
    forall i | 0 <= i < |s|
      ensures Label(s)[i] == if s[i] == '-' then ' ' else if i == 0 || s[i - 1] == '-' then UpperChar(s[i]) else s[i]
    {
      LabelCharAt(s, true, i);
    }
  }

  predicate NoDash(w: string) {
    forall i :: 0 <= i < |w| ==> w[i] != '-'
  }

  lemma {:induction false} SplitWord(w: string, rest: string)
    requires NoDash(w)
    ensures Split(w + "-" + rest) == [w] + Split(rest)
  {
    var s := w + "-" + rest;
    if w == [] {
      assert s[0] == '-' && s[1..] == rest;
    } else {
      assert s[0] == w[0] && s[1..] == w[1..] + "-" + rest;
      SplitWord(w[1..], rest);
      assert [w[0]] + w[1..] == w;
    }
  }

  lemma {:induction false} SplitLastWord(w: string)
    requires NoDash(w)
    ensures Split(w) == [w]
  {
    if w != [] {
      SplitLastWord(w[1..]);
      assert [w[0]] + w[1..] == w;
    }
  }

  /** A label of one word capitalises it; further words follow after a space. */
  lemma LabelOfWords(w: string, rest: string)
    requires NoDash(w)
    ensures Label(w) == Capitalize(w)
    ensures Label(w + "-" + rest) == Capitalize(w) + " " + Label(rest)
  {
    SplitLastWord(w);
    SplitWord(w, rest);
    assert CapitalizeAll([w] + Split(rest)) == [Capitalize(w)] + CapitalizeAll(Split(rest)) by {
      assert ([w] + Split(rest))[1..] == Split(rest);
    }
  }

  lemma StatusWords()
    ensures StatusName(FollowUpNeeded) == "follow" + "-" + ("up" + "-" + "needed")
    ensures StatusName(WaitingResponse) == "waiting" + "-" + "response"
    ensures StatusName(Responsive) == "responsive"
  {
  }

  lemma CapitalizedWords()
    ensures Capitalize("follow") == "Follow" && Capitalize("up") == "Up" && Capitalize("needed") == "Needed"
    ensures Capitalize("waiting") == "Waiting" && Capitalize("response") == "Response"
    ensures Capitalize("responsive") == "Responsive"
  {
  }

  lemma JoinedWords()
    ensures "Follow" + " " + ("Up" + " " + "Needed") == "Follow Up Needed"
    ensures "Waiting" + " " + "Response" == "Waiting Response"
  {
  }

  lemma TwoWordLabel(a: string, b: string)
    requires NoDash(a) && NoDash(b)
    ensures Label(a + "-" + b) == Capitalize(a) + " " + Capitalize(b)
  {
    LabelOfWords(a, b);
    LabelOfWords(b, "");
  }

  lemma ThreeWordLabel(a: string, b: string, c: string)
    requires NoDash(a) && NoDash(b) && NoDash(c)
    ensures Label(a + "-" + (b + "-" + c)) == Capitalize(a) + " " + (Capitalize(b) + " " + Capitalize(c))
  {
    LabelOfWords(a, b + "-" + c);
    TwoWordLabel(b, c);
  }

  lemma DashFree()
    ensures NoDash("follow") && NoDash("up") && NoDash("needed")
    ensures NoDash("waiting") && NoDash("response") && NoDash("responsive")
  {
  }

  lemma FollowUpLabel()
    ensures Label(StatusName(FollowUpNeeded)) == "Follow Up Needed"
  {
    StatusWords();
    CapitalizedWords();
    JoinedWords();
    DashFree();
    ThreeWordLabel("follow", "up", "needed");
  }

  lemma WaitingLabel()
    ensures Label(StatusName(WaitingResponse)) == "Waiting Response"
  {
    StatusWords();
    CapitalizedWords();
    JoinedWords();
    DashFree();
    TwoWordLabel("waiting", "response");
  }

  lemma ResponsiveLabel()
    ensures Label(StatusName(Responsive)) == "Responsive"
  {
    StatusWords();
    CapitalizedWords();
    DashFree();
    LabelOfWords("responsive", "");
  }

  /** The three labels the card shows. */
  lemma StatusLabels()
    ensures Label(StatusName(FollowUpNeeded)) == "Follow Up Needed"
    ensures Label(StatusName(WaitingResponse)) == "Waiting Response"
    ensures Label(StatusName(Responsive)) == "Responsive"
  {
    FollowUpLabel();
    WaitingLabel();
    ResponsiveLabel();
  }
}

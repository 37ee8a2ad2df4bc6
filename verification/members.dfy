/** The member directory: the callsign search, the alphabetical listing, the
    membership-length caption, and the edits a member makes to their own
    entry (role, hangar ships) and to which entry is expanded. */
module Members {
  import opened Common
  import opened Text
  import opened Types
  import Accounts

  /** Whether a user is kept by the search: everyone when the lower-cased
      term is empty, otherwise those whose lower-cased callsign contains it. */
  predicate Matches(u: User, term: string) {
    ToLower(term) == [] || Contains(ToLower(u.callsign), ToLower(term))
  }

  /** `users.filter(...)`: the users the search keeps, in order. */
  function Filter(users: seq<User>, term: string): (r: seq<User>)
    ensures forall x :: multiset(r)[x] == if Matches(x, term) then multiset(users)[x] else 0
    decreases |users|
  {
    if |users| == 0 then []
    else
      assert users == [users[0]] + users[1..];
      (if Matches(users[0], term) then [users[0]] else []) + Filter(users[1..], term)
  }

  /** Ascending by callsign, compared pairwise along the list. */
  predicate SortedByCallsign(s: seq<User>) {
    forall i :: 0 <= i < |s| - 1 ==> StrLe(s[i].callsign, s[i + 1].callsign)
  }

  /** Puts `x` in front of the first user whose callsign is not below it. */
  function InsertByCallsign(x: User, s: seq<User>): (r: seq<User>)
    requires SortedByCallsign(s)
    ensures |r| == |s| + 1
    ensures multiset(r) == multiset(s) + multiset{x}
    ensures SortedByCallsign(r)
    ensures r[0] == x || (|s| > 0 && r[0] == s[0])
    decreases |s|
  {
    if |s| == 0 || StrLe(x.callsign, s[0].callsign) then [x] + s
    else
      StrLeTotal(x.callsign, s[0].callsign);
      assert s == [s[0]] + s[1..];
      [s[0]] + InsertByCallsign(x, s[1..])
  }

  /** An insertion sort by callsign, standing for `sort` with `localeCompare`. */
  function SortByCallsign(s: seq<User>): (r: seq<User>)
    ensures multiset(r) == multiset(s)
    ensures SortedByCallsign(r)
    decreases |s|
  {
    if |s| == 0 then []
    else
      assert s == [s[0]] + s[1..];
      InsertByCallsign(s[0], SortByCallsign(s[1..]))
  }

  /** The listing: exactly the users the search keeps, each as often as the
      roster holds it, in ascending callsign order. */
  function FilteredAndSorted(users: seq<User>, term: string): (r: seq<User>)
    ensures SortedByCallsign(r)
    ensures forall x :: multiset(r)[x] == if Matches(x, term) then multiset(users)[x] else 0
    ensures forall x :: x in r <==> x in users && Matches(x, term)
  {
    SortByCallsign(Filter(users, term))
  }

  /** An empty search lists the whole roster. */
  lemma EmptySearchListsEveryone(users: seq<User>)
    ensures multiset(FilteredAndSorted(users, "")) == multiset(users)
  {
    var r := FilteredAndSorted(users, "");
    forall x
      ensures multiset(r)[x] == multiset(users)[x]
    {
      assert Matches(x, "");
    }
  }

  /** The search ignores letter case in the term. */
  lemma SearchIgnoresTermCase(users: seq<User>, a: string, b: string)
    requires EqualsIgnoreCase(a, b)
    ensures multiset(FilteredAndSorted(users, a)) == multiset(FilteredAndSorted(users, b))
  {
    var ra := FilteredAndSorted(users, a);
    var rb := FilteredAndSorted(users, b);
    forall x
      ensures multiset(ra)[x] == multiset(rb)[x]
    {
      assert Matches(x, a) == Matches(x, b);
    }
  }

  /** Two sorted listings of the same users are the same listing: the order
      is fully decided by the callsigns (given that equal callsigns mean the
      same user here). */
  lemma {:induction false} SortedListingUnique(a: seq<User>, b: seq<User>)
    requires SortedByCallsign(a) && SortedByCallsign(b)
    requires multiset(a) == multiset(b)
    requires forall x, y :: x in a && y in a && x.callsign == y.callsign ==> x == y
    ensures a == b
    decreases |a|
  {
    if |a| > 0 {
      SameHead(a, b);
      TailsMatch(a, b);
      SortedListingUnique(a[1..], b[1..]);
      assert a == [a[0]] + a[1..];
      assert b == [b[0]] + b[1..];
    }
  }

  /** Two sorted listings of the same accounts, callsigns unique, start with
      the same account. */
  lemma SameHead(a: seq<User>, b: seq<User>)
    requires SortedByCallsign(a) && SortedByCallsign(b)
    requires multiset(a) == multiset(b) && |a| > 0
    requires forall x, y :: x in a && y in a && x.callsign == y.callsign ==> x == y
    ensures |b| > 0 && a[0] == b[0]
  {
    assert a[0] in multiset(b);
    assert b[0] in multiset(a);
    SortedHeadIsLeast(a, b[0]);
    SortedHeadIsLeast(b, a[0]);
    StrLeAntisymmetric(a[0].callsign, b[0].callsign);
  }

  /** Dropping a shared head keeps the listings sorted, the same accounts and
      the callsigns unique. */
  lemma TailsMatch(a: seq<User>, b: seq<User>)
    requires SortedByCallsign(a) && SortedByCallsign(b)
    requires multiset(a) == multiset(b) && |a| > 0 && |b| > 0 && a[0] == b[0]
    requires forall x, y :: x in a && y in a && x.callsign == y.callsign ==> x == y
    ensures SortedByCallsign(a[1..]) && SortedByCallsign(b[1..])
    ensures multiset(a[1..]) == multiset(b[1..])
    ensures forall x, y :: x in a[1..] && y in a[1..] && x.callsign == y.callsign ==> x == y
  {
    assert a == [a[0]] + a[1..];
    assert b == [b[0]] + b[1..];
    assert multiset(a[1..]) == multiset(a) - multiset([a[0]]);
    assert multiset(b[1..]) == multiset(b) - multiset([b[0]]);
    forall x, y | x in a[1..] && y in a[1..] && x.callsign == y.callsign
      ensures x == y
    {
      assert x in a && y in a;
    }
  }

  /** The head of a sorted listing has the least callsign in it. */
  lemma {:induction false} SortedHeadIsLeast(s: seq<User>, x: User)
    requires SortedByCallsign(s) && x in s
    ensures StrLe(s[0].callsign, x.callsign)
    decreases |s|
  {
    if s[0] != x {
      assert x in s[1..];
      assert SortedByCallsign(s[1..]);
      SortedHeadIsLeast(s[1..], x);
      StrLeTransitive(s[0].callsign, s[1].callsign, x.callsign);
    } else {
      StrLeTotal(x.callsign, x.callsign);
    }
  }

  /** A calendar date as the screen reads it: full year, month 0..11, day of
      month. */
  datatype CalendarDate = CalendarDate(year: int, month: int, day: int)

  datatype Duration = Duration(years: int, months: int, days: int)

  /** The years, months and days from `start` to `now`. `daysInPreviousMonth`
      is the length of the month before `now`'s, which the calendar supplies.
      A negative day difference borrows a month; a negative month difference
      borrows a year. */
  function MembershipSpan(start: CalendarDate, now: CalendarDate, daysInPreviousMonth: int): (d: Duration)
    requires 0 <= start.month < 12 && 0 <= now.month < 12
    ensures 0 <= d.months < 12
    ensures d.years * 12 + d.months
      == (now.year - start.year) * 12 + (now.month - start.month) - (if now.day < start.day then 1 else 0)
    ensures now.day >= start.day ==> d.days == now.day - start.day
    ensures now.day < start.day ==> d.days == now.day - start.day + daysInPreviousMonth
    ensures start.day - now.day <= daysInPreviousMonth ==> d.days >= 0
  {
    var years := now.year - start.year;
    var months := now.month - start.month;
    var days := now.day - start.day;
    var (months1, days1) := if days < 0 then (months - 1, days + daysInPreviousMonth) else (months, days);
    if months1 < 0 then Duration(years - 1, months1 + 12, days1) else Duration(years, months1, days1)
  }

  /** A joined-since span that has not started yet or is the very same day. */
  const JoinedToday: string := "Joined today"

  /** "N unit", with an "s" when N is above one. */
  function UnitText(n: nat, unit: string): string {
    NatToString(n) + " " + unit + (if n > 1 then "s" else "")
  }

  /** The caption's parts: years when positive, months when positive, and
      days only when both years and months are zero and days are positive. */
  function DurationParts(d: Duration): (parts: seq<string>)
    ensures |parts| <= 2
    ensures (|parts| == 0) <==> (d.years <= 0 && d.months <= 0 && !(d.years == 0 && d.months == 0 && d.days > 0))
    ensures d.years > 0 ==> parts[0] == UnitText(d.years, "year")
    ensures d.years > 0 && d.months <= 0 ==> parts == [UnitText(d.years, "year")]
    ensures d.years <= 0 && d.months > 0 ==> parts == [UnitText(d.months, "month")]
    ensures d.years > 0 && d.months > 0 ==> parts == [UnitText(d.years, "year"), UnitText(d.months, "month")]
    ensures d.years == 0 && d.months == 0 && d.days > 0 ==> parts == [UnitText(d.days, "day")]
    ensures forall i :: 0 <= i < |parts| ==> |parts[i]| > 0 && '0' <= parts[i][0] <= '9'
  {
    var ys := if d.years > 0 then [UnitText(d.years, "year")] else [];
    var ms := if d.months > 0 then [UnitText(d.months, "month")] else [];
    var ds := if d.years == 0 && d.months == 0 && d.days > 0 then [UnitText(d.days, "day")] else [];
    ys + ms + ds
  }

  /** The membership caption: the parts joined by ", ", or "Joined today"
      when there are none. It reads "Joined today" exactly when there are no
      parts, and otherwise starts with a digit. */
  function DurationText(d: Duration): (r: string)
    ensures r == JoinedToday <==> |DurationParts(d)| == 0
    ensures |DurationParts(d)| > 0 ==> |r| > 0 && '0' <= r[0] <= '9'
    ensures |DurationParts(d)| > 0 ==> r == Join(DurationParts(d), ", ")
    ensures |DurationParts(d)| == 2 ==> r == DurationParts(d)[0] + ", " + DurationParts(d)[1]
  {
    var parts := DurationParts(d);
    if d.years == 0 && d.months == 0 && d.days == 0 then JoinedToday
    else if |parts| > 0 then
      JoinStartsWithFirst(parts, ", ");
      assert JoinedToday[0] == 'J';
      Join(parts, ", ")
    else JoinedToday
  }

  lemma JoinStartsWithFirst(parts: seq<string>, sep: string)
    requires |parts| > 0 && |parts[0]| > 0
    ensures |Join(parts, sep)| > 0 && Join(parts, sep)[0] == parts[0][0]
  {
  }

  /** Joining on the very day gives "Joined today". */
  lemma SameDayIsJoinedToday(date: CalendarDate, daysInPreviousMonth: int)
    requires 0 <= date.month < 12
    ensures DurationText(MembershipSpan(date, date, daysInPreviousMonth)) == JoinedToday
  {
  }

  /** Joining earlier in the current month gives the day count alone. */
  lemma SameMonthShowsDays(start: CalendarDate, now: CalendarDate, daysInPreviousMonth: int)
    requires 0 <= start.month < 12 && now.year == start.year && now.month == start.month
    requires now.day > start.day
    ensures DurationText(MembershipSpan(start, now, daysInPreviousMonth)) == UnitText(now.day - start.day, "day")
  {
  }

  /** Each unit is written in the plural exactly when its count is above one. */
  lemma UnitPluralIff(n: nat, unit: string)
    requires unit in {"year", "month", "day"}
    ensures var t := UnitText(n, unit); t[|t| - 1] == 's' <==> n > 1
  {
    var t := UnitText(n, unit);
    if n <= 1 {
      assert t == NatToString(n) + " " + unit;
      assert t[|t| - 1] == unit[|unit| - 1];
    }
  }

  /** Which entry is expanded and which entry's role editor is open. */
  datatype MembersScreen = MembersScreen(expandedMemberId: Option<int>, editingRoleId: Option<int>)

  /** Clicking an entry: an expanded entry collapses, any other expands in
      its place; the role editor closes either way. */
  function ToggleDetails(s: MembersScreen, memberId: int): (r: MembersScreen)
    ensures s.expandedMemberId == Some(memberId) ==> r.expandedMemberId.None?
    ensures s.expandedMemberId != Some(memberId) ==> r.expandedMemberId == Some(memberId)
    ensures r.editingRoleId.None?
  {
    if s.expandedMemberId == Some(memberId) then MembersScreen(None, None)
    else MembersScreen(Some(memberId), None)
  }

  /** Clicking the same entry twice restores what was expanded when it was
      either nothing or that entry. */
  lemma ToggleTwiceRestores(s: MembersScreen, memberId: int)
    requires s.expandedMemberId.None? || s.expandedMemberId == Some(memberId)
    ensures ToggleDetails(ToggleDetails(s, memberId), memberId).expandedMemberId == s.expandedMemberId
  {
  }

  /** Saving the role editor: blank input is ignored; otherwise the trimmed
      role goes to every account with the viewer's callsign and the editor
      closes. */
  function SaveRole(users: seq<User>, viewer: string, draft: string, s: MembersScreen): (r: (seq<User>, MembersScreen))
    ensures Trim(draft) == "" ==> r == (users, s)
    ensures Trim(draft) != "" ==>
      && r.1 == s.(editingRoleId := None)
      && |r.0| == |users|
      && forall i :: 0 <= i < |users| ==>
           r.0[i] == if users[i].callsign == viewer then users[i].(role := Trim(draft)) else users[i]
  {
    if Trim(draft) == "" then (users, s)
    else (Accounts.UpdateRole(users, viewer, Trim(draft)), s.(editingRoleId := None))
  }

  /** Saving a role with surrounding whitespace saves the same role as saving
      it trimmed. */
  lemma SaveRoleIgnoresPadding(users: seq<User>, viewer: string, draft: string, s: MembersScreen)
    ensures SaveRole(users, viewer, draft, s) == SaveRole(users, viewer, Trim(draft), s)
  {
    TrimIdempotent(draft);
  }

  /** The add-ship modal's form: the model typed and the picture read, if any. */
  datatype ShipDraft = ShipDraft(model: string, imageUrl: Option<string>, isOpen: bool)

  /** Submitting the add-ship modal: a blank model is ignored; otherwise the
      trimmed model and the picture go to the viewer's hangar under
      `shipId`, the form clears and the modal closes. */
  function SubmitShip(users: seq<User>, viewer: string, draft: ShipDraft, shipId: int): (r: (seq<User>, ShipDraft))
    ensures Trim(draft.model) == "" ==> r == (users, draft)
    ensures Trim(draft.model) != "" ==>
      && r.1 == ShipDraft("", None, false)
      && |r.0| == |users|
      && forall i :: 0 <= i < |users| ==>
           r.0[i] == if users[i].callsign == viewer
                     then users[i].(ships := users[i].ships + [UserShip(shipId, Trim(draft.model), draft.imageUrl)])
                     else users[i]
  {
    if Trim(draft.model) == "" then (users, draft)
    else (Accounts.AddShip(users, viewer, Trim(draft.model), draft.imageUrl, shipId), ShipDraft("", None, false))
  }

  /** A submitted ship can be taken out again: removing it by its id gives
      back the roster as it was, when no hangar held that id before. */
  lemma SubmitShipThenRemove(users: seq<User>, viewer: string, draft: ShipDraft, shipId: int)
    requires Trim(draft.model) != ""
    requires forall i, j :: 0 <= i < |users| && 0 <= j < |users[i].ships| ==> users[i].ships[j].id != shipId
    ensures Accounts.RemoveShip(SubmitShip(users, viewer, draft, shipId).0, viewer, shipId) == users
  {
    Accounts.RemoveShipUndoesAddShip(users, viewer, Trim(draft.model), draft.imageUrl, shipId);
  }
}

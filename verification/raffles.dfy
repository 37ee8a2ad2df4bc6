/** The raffle logic of the application shell: the views derived from the
    raffle list (current raffle, past raffles, the current raffle's entries)
    and the enter, start and draw intents. Each intent is a pure function
    from the collections before it to the collections after it. */
module Raffles {
  import opened Common
  import opened Types

  /** The winner recorded when a raffle is drawn with nobody entered. */
  const NoEntries: string := "No entries"

  /** The position of the first active raffle, or `|raffles|` when no raffle
      is active. */
  function FirstActive(raffles: seq<Raffle>): (k: nat)
    ensures k <= |raffles|
    ensures k < |raffles| ==> raffles[k].isActive
    ensures forall j :: 0 <= j < k ==> !raffles[j].isActive
    decreases |raffles|
  {
    if |raffles| == 0 || raffles[0].isActive then 0
    else 1 + FirstActive(raffles[1..])
  }

  /** `raffles.find(r => r.isActive)`: the first active raffle, if any. */
  function CurrentRaffle(raffles: seq<Raffle>): (r: Option<Raffle>)
    ensures r.None? <==> forall i :: 0 <= i < |raffles| ==> !raffles[i].isActive
    ensures r.Some? ==> exists i :: 0 <= i < |raffles| && raffles[i] == r.value
    ensures r.Some? ==> r.value.isActive
    ensures r.Some? ==>
      exists k :: 0 <= k < |raffles| && raffles[k] == r.value && forall j :: 0 <= j < k ==> !raffles[j].isActive
  {
    var k := FirstActive(raffles);
    if k < |raffles| then Some(raffles[k]) else None
  }

  /** The collection-wide invariant: no two raffles are active at once. */
  predicate AtMostOneActive(raffles: seq<Raffle>) {
    forall i, j :: 0 <= i < |raffles| && 0 <= j < |raffles| && raffles[i].isActive && raffles[j].isActive ==> i == j
  }

  /** `raffles.filter(r => !r.isActive)`: the inactive raffles, in order. */
  function Inactive(raffles: seq<Raffle>): (r: seq<Raffle>)
    ensures forall x :: multiset(r)[x] == if x.isActive then 0 else multiset(raffles)[x]
    decreases |raffles|
  {
    if |raffles| == 0 then []
    else
      assert raffles == [raffles[0]] + raffles[1..];
      (if raffles[0].isActive then [] else [raffles[0]]) + Inactive(raffles[1..])
  }

  /** Later end dates first. */
  predicate SortedByEndDesc(rs: seq<Raffle>) {
    forall i :: 0 <= i < |rs| - 1 ==> rs[i].endDate >= rs[i + 1].endDate
  }

  /** Puts `x` in front of the first raffle that does not end later than it. */
  function InsertByEndDesc(x: Raffle, s: seq<Raffle>): (r: seq<Raffle>)
    requires SortedByEndDesc(s)
    ensures |r| == |s| + 1
    ensures multiset(r) == multiset(s) + multiset{x}
    ensures SortedByEndDesc(r)
    ensures r[0] == x || (|s| > 0 && r[0] == s[0])
    decreases |s|
  {
    if |s| == 0 || s[0].endDate <= x.endDate then [x] + s
    else
      assert s == [s[0]] + s[1..];
      [s[0]] + InsertByEndDesc(x, s[1..])
  }

  /** A sort by end date, latest first. */
  function SortByEndDesc(s: seq<Raffle>): (r: seq<Raffle>)
    ensures multiset(r) == multiset(s)
    ensures SortedByEndDesc(r)
    decreases |s|
  {
    if |s| == 0 then []
    else
      assert s == [s[0]] + s[1..];
      InsertByEndDesc(s[0], SortByEndDesc(s[1..]))
  }

  /** The raffle history: exactly the inactive raffles, each as often as it
      occurs in the collection, ordered by end date with the latest first. */
  function PastRaffles(raffles: seq<Raffle>): (r: seq<Raffle>)
    ensures SortedByEndDesc(r)
    ensures forall x :: multiset(r)[x] == if x.isActive then 0 else multiset(raffles)[x]
    ensures forall x :: x in r <==> x in raffles && !x.isActive
  {
    SortByEndDesc(Inactive(raffles))
  }

  /** `entries.filter(e => e.raffleId === raffleId)`, in order. */
  function EntriesFor(entries: seq<RaffleEntry>, raffleId: int): (r: seq<RaffleEntry>)
    ensures |r| <= |entries|
    ensures forall e :: e in r <==> e in entries && e.raffleId == raffleId
    decreases |entries|
  {
    if |entries| == 0 then []
    else
      (if entries[0].raffleId == raffleId then [entries[0]] else [])
      + EntriesFor(entries[1..], raffleId)
  }

  /** Each entry of the raffle is kept exactly as often as the list holds it. */
  lemma {:induction false} EntriesForCounts(entries: seq<RaffleEntry>, raffleId: int)
    ensures forall e ::
      multiset(EntriesFor(entries, raffleId))[e] == if e.raffleId == raffleId then multiset(entries)[e] else 0
    decreases |entries|
  {
    if |entries| > 0 {
      var head := if entries[0].raffleId == raffleId then [entries[0]] else [];
      assert entries == [entries[0]] + entries[1..];
      assert EntriesFor(entries, raffleId) == head + EntriesFor(entries[1..], raffleId);
      EntriesForCounts(entries[1..], raffleId);
    }
  }

  /** The filter works piecewise, so the kept entries stay in their original
      order: the entries of a joined list are those of the first part
      followed by those of the second. */
  lemma {:induction false} EntriesForAppend(a: seq<RaffleEntry>, b: seq<RaffleEntry>, raffleId: int)
    ensures EntriesFor(a + b, raffleId) == EntriesFor(a, raffleId) + EntriesFor(b, raffleId)
    decreases |a|
  {
    if |a| > 0 {
      assert (a + b)[1..] == a[1..] + b;
      EntriesForAppend(a[1..], b, raffleId);
    } else {
      assert a + b == b;
    }
  }

  /** The entries of the current raffle; none when no raffle is active. */
  function CurrentEntries(raffles: seq<Raffle>, entries: seq<RaffleEntry>): seq<RaffleEntry> {
    match CurrentRaffle(raffles)
    case None => []
    case Some(c) => EntriesFor(entries, c.id)
  }

  /** `currentRaffleEntries.some(e => e.userCallsign === callsign)`. */
  predicate HasEntered(raffles: seq<Raffle>, entries: seq<RaffleEntry>, callsign: string) {
    var ce := CurrentEntries(raffles, entries);
    exists i :: 0 <= i < |ce| && ce[i].userCallsign == callsign
  }

  /** Having entered means holding the entry `(current raffle id, callsign)`. */
  lemma HasEnteredIff(raffles: seq<Raffle>, entries: seq<RaffleEntry>, callsign: string)
    ensures HasEntered(raffles, entries, callsign) <==>
      CurrentRaffle(raffles).Some?
      && RaffleEntry(CurrentRaffle(raffles).value.id, callsign) in entries
  {
    var cur := CurrentRaffle(raffles);
    if cur.Some? {
      var ce := CurrentEntries(raffles, entries);
      var e := RaffleEntry(cur.value.id, callsign);
      if e in entries {
        assert e in ce;
        var i :| 0 <= i < |ce| && ce[i] == e;
        assert ce[i].userCallsign == callsign;
      }
      if HasEntered(raffles, entries, callsign) {
        var i :| 0 <= i < |ce| && ce[i].userCallsign == callsign;
        assert ce[i] in ce;
        assert ce[i] == e;
      }
    }
  }

  /** Entering the current raffle: the entry `(current raffle id, callsign)`
      is appended exactly when a raffle is active and that entry is not yet
      present; otherwise the entries are unchanged. */
  function EnterRaffle(raffles: seq<Raffle>, entries: seq<RaffleEntry>, callsign: string): (r: seq<RaffleEntry>)
    ensures CurrentRaffle(raffles).None? ==> r == entries
    ensures CurrentRaffle(raffles).Some? ==>
      var e := RaffleEntry(CurrentRaffle(raffles).value.id, callsign);
      r == if e in entries then entries else entries + [e]
  {
    HasEnteredIff(raffles, entries, callsign);
    match CurrentRaffle(raffles)
    case None => entries
    case Some(c) =>
      if !HasEntered(raffles, entries, callsign)
      then entries + [RaffleEntry(c.id, callsign)]
      else entries
  }

  /** One entry per callsign per raffle: no entry occurs twice. */
  predicate UniqueEntries(entries: seq<RaffleEntry>) {
    forall i, j :: 0 <= i < |entries| && 0 <= j < |entries| && entries[i] == entries[j] ==> i == j
  }

  /** Entering keeps the entries unique. */
  lemma EnterKeepsEntriesUnique(raffles: seq<Raffle>, entries: seq<RaffleEntry>, callsign: string)
    requires UniqueEntries(entries)
    ensures UniqueEntries(EnterRaffle(raffles, entries, callsign))
  {
    var r := EnterRaffle(raffles, entries, callsign);
    if |r| != |entries| {
      var e := r[|entries|];
      assert e !in entries;
      assert r == entries + [e];
    }
  }

  /** Entering twice in a row is entering once. */
  lemma {:induction false} EnterIdempotent(raffles: seq<Raffle>, entries: seq<RaffleEntry>, callsign: string)
    ensures EnterRaffle(raffles, EnterRaffle(raffles, entries, callsign), callsign)
         == EnterRaffle(raffles, entries, callsign)
  {
    var once := EnterRaffle(raffles, entries, callsign);
    if CurrentRaffle(raffles).Some? {
      var e := RaffleEntry(CurrentRaffle(raffles).value.id, callsign);
      assert e in once by {
        if e !in entries {
          assert once[|entries|] == e;
        }
      }
    }
  }

  /** After entering an active raffle the caller counts as entered. */
  lemma EnterMarksEntered(raffles: seq<Raffle>, entries: seq<RaffleEntry>, callsign: string)
    requires CurrentRaffle(raffles).Some?
    ensures HasEntered(raffles, EnterRaffle(raffles, entries, callsign), callsign)
  {
    var once := EnterRaffle(raffles, entries, callsign);
    var e := RaffleEntry(CurrentRaffle(raffles).value.id, callsign);
    if e !in entries {
      assert once[|entries|] == e;
    }
    HasEnteredIff(raffles, once, callsign);
  }

  /** Every raffle with its active flag cleared, all else kept. */
  function Deactivate(raffles: seq<Raffle>): (r: seq<Raffle>)
    ensures |r| == |raffles|
    ensures forall i :: 0 <= i < |r| ==> !r[i].isActive
  {
    seq(|raffles|, i requires 0 <= i < |raffles| => raffles[i].(isActive := false))
  }

  /** Starting a raffle: every existing raffle keeps all its fields but becomes
      inactive, and the new raffle, active and without a winner, is appended.
      Afterwards it is the only active raffle and it is the current one. */
  function StartRaffle(raffles: seq<Raffle>, prize: string, endDate: int, newId: int): (r: seq<Raffle>)
    ensures |r| == |raffles| + 1
    ensures r[|raffles|] == Raffle(newId, prize, endDate, true, None)
    ensures forall i :: 0 <= i < |raffles| ==> r[i] == raffles[i].(isActive := false)
    ensures AtMostOneActive(r)
    ensures CurrentRaffle(r) == Some(r[|raffles|])
  {
    var r := Deactivate(raffles) + [Raffle(newId, prize, endDate, true, None)];
    assert FirstActive(r) == |raffles| by {
      assert r[|raffles|].isActive;
      assert forall j :: 0 <= j < |raffles| ==> r[j] == Deactivate(raffles)[j];
    }
    r
  }

  /** The callsign a draw records: the entrant at position `pick` among the
      current raffle's entries, or `NoEntries` when it has none. */
  function DrawnCallsign(ce: seq<RaffleEntry>, pick: nat): (w: string)
    requires pick < |ce| || |ce| == 0
    ensures |ce| > 0 ==> w == ce[pick].userCallsign
    ensures |ce| == 0 ==> w == NoEntries
  {
    if |ce| > 0 then ce[pick].userCallsign else NoEntries
  }

  /** Drawing the current raffle's winner. `pick` stands for
      `Math.floor(Math.random() * n)` over its `n` entries. Every raffle that
      carries the current raffle's id becomes inactive with the drawn winner;
      every other raffle is unchanged. With no active raffle nothing changes. */
  function DrawWinner(raffles: seq<Raffle>, entries: seq<RaffleEntry>, pick: nat): (r: seq<Raffle>)
    requires pick < |CurrentEntries(raffles, entries)| || |CurrentEntries(raffles, entries)| == 0
    ensures CurrentRaffle(raffles).None? ==> r == raffles
    ensures |r| == |raffles|
    ensures CurrentRaffle(raffles).Some? ==>
      var c := CurrentRaffle(raffles).value;
      var w := DrawnCallsign(CurrentEntries(raffles, entries), pick);
      forall i :: 0 <= i < |raffles| ==>
        r[i] == if raffles[i].id == c.id then raffles[i].(isActive := false, winner := Some(w)) else raffles[i]
  {
    match CurrentRaffle(raffles)
    case None => raffles
    case Some(c) =>
      var w := DrawnCallsign(CurrentEntries(raffles, entries), pick);
      seq(|raffles|, i requires 0 <= i < |raffles| =>
        if raffles[i].id == c.id then raffles[i].(isActive := false, winner := Some(w)) else raffles[i])
  }

  /** Under the one-active-raffle invariant, a draw concludes the current
      raffle: no raffle is active afterwards, and the recorded winner is the
      callsign of one of its entries, or `NoEntries` exactly when it had none. */
  lemma DrawWinnerConcludes(raffles: seq<Raffle>, entries: seq<RaffleEntry>, pick: nat)
    requires AtMostOneActive(raffles)
    requires CurrentRaffle(raffles).Some?
    requires pick < |CurrentEntries(raffles, entries)| || |CurrentEntries(raffles, entries)| == 0
    ensures CurrentRaffle(DrawWinner(raffles, entries, pick)).None?
    ensures var c := CurrentRaffle(raffles).value;
      var w := DrawnCallsign(CurrentEntries(raffles, entries), pick);
      && ((exists e :: e in entries && e.raffleId == c.id) ==> RaffleEntry(c.id, w) in entries)
      && ((forall e :: e in entries ==> e.raffleId != c.id) ==> w == NoEntries)
  {
    var c := CurrentRaffle(raffles).value;
    var ce := CurrentEntries(raffles, entries);
    var r := DrawWinner(raffles, entries, pick);
    var k := FirstActive(raffles);
    forall i | 0 <= i < |r|
      ensures !r[i].isActive
    {
      if raffles[i].id != c.id {
        assert r[i] == raffles[i];
        assert raffles[k].isActive;
      }
    }
    if |ce| > 0 {
      assert ce[pick] in ce;
    }
  }

  /** Under the one-active-raffle invariant, drawing again after a draw
      changes nothing: no raffle is drawn twice. */
  lemma DrawWinnerOnce(raffles: seq<Raffle>, entries: seq<RaffleEntry>, pick: nat, again: nat)
    requires AtMostOneActive(raffles)
    requires pick < |CurrentEntries(raffles, entries)| || |CurrentEntries(raffles, entries)| == 0
    ensures var once := DrawWinner(raffles, entries, pick);
      DrawWinner(once, entries, again) == once
  {
    if CurrentRaffle(raffles).Some? {
      DrawWinnerConcludes(raffles, entries, pick);
    }
  }

  /** Under the one-active-raffle invariant, once a raffle is drawn nobody can
      enter any more. */
  lemma NoEntryAfterDraw(raffles: seq<Raffle>, entries: seq<RaffleEntry>, pick: nat, callsign: string)
    requires AtMostOneActive(raffles)
    requires CurrentRaffle(raffles).Some?
    requires pick < |CurrentEntries(raffles, entries)| || |CurrentEntries(raffles, entries)| == 0
    ensures EnterRaffle(DrawWinner(raffles, entries, pick), entries, callsign) == entries
  {
    DrawWinnerConcludes(raffles, entries, pick);
  }
}

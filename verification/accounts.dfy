/** The account roster of the application shell: credential check,
    registration, moderation by id, self-service edits by callsign, and the
    dashboard aggregates over approved accounts. */
module Accounts {
  import opened Common
  import opened Text
  import opened Types

  const TakenMessage: string := "Gamer Tag already taken."
  const SubmittedMessage: string := "Application submitted! Awaiting admin approval."
  const RecruitRole: string := "Recruit"
  const StarterModel: string := "Aurora MR"

  /** The placeholder avatar a new account gets. */
  function AvatarFor(callsign: string): string {
    "https://picsum.photos/seed/" + callsign + "/100/100"
  }

  /** The credential test of the login search: callsign equal ignoring case,
      password equal exactly. */
  predicate CredentialsMatch(u: User, callsign: string, password: string) {
    EqualsIgnoreCase(u.callsign, callsign) && u.password == password
  }

  /** The position of the first account whose credentials match, or `|users|`. */
  function FindCredentials(users: seq<User>, callsign: string, password: string): (k: nat)
    ensures k <= |users|
    ensures k < |users| ==> CredentialsMatch(users[k], callsign, password)
    ensures forall j :: 0 <= j < k ==> !CredentialsMatch(users[j], callsign, password)
    decreases |users|
  {
    if |users| == 0 || CredentialsMatch(users[0], callsign, password) then 0
    else 1 + FindCredentials(users[1..], callsign, password)
  }

  /** The account check of a login: the first account whose credentials match
      is found, and the login succeeds with it only if that account is
      approved. A successful result is always an approved account of the
      roster with matching credentials. */
  function Authenticate(users: seq<User>, callsign: string, password: string): (r: Option<User>)
    ensures r.Some? ==> r.value in users
    ensures r.Some? ==> CredentialsMatch(r.value, callsign, password) && r.value.accessStatus == Approved
    ensures (forall i :: 0 <= i < |users| ==> !CredentialsMatch(users[i], callsign, password)) ==> r.None?
  {
    var k := FindCredentials(users, callsign, password);
    if k < |users| && users[k].accessStatus == Approved then Some(users[k]) else None
  }

  /** Callsigns are unique ignoring case. Registration keeps this; nothing
      else changes a callsign. */
  predicate UniqueCallsigns(users: seq<User>) {
    forall i, j :: 0 <= i < |users| && 0 <= j < |users| && EqualsIgnoreCase(users[i].callsign, users[j].callsign) ==> i == j
  }

  /** With unique callsigns, a login succeeds exactly when some account
      matches the callsign ignoring case and the password exactly and is
      approved; it then yields that account. */
  lemma AuthenticateIff(users: seq<User>, callsign: string, password: string)
    requires UniqueCallsigns(users)
    ensures Authenticate(users, callsign, password).Some? <==>
      exists i :: 0 <= i < |users| && CredentialsMatch(users[i], callsign, password) && users[i].accessStatus == Approved
    ensures forall i :: 0 <= i < |users| && CredentialsMatch(users[i], callsign, password) ==>
      Authenticate(users, callsign, password) == if users[i].accessStatus == Approved then Some(users[i]) else None
  {
    var k := FindCredentials(users, callsign, password);
    forall i | 0 <= i < |users| && CredentialsMatch(users[i], callsign, password)
      ensures k == i
    {
      assert k <= i;
      assert EqualsIgnoreCase(users[k].callsign, users[i].callsign);
    }
  }

  /** Some account already holds `callsign`, ignoring case. */
  predicate CallsignTaken(users: seq<User>, callsign: string) {
    exists i :: 0 <= i < |users| && EqualsIgnoreCase(users[i].callsign, callsign)
  }

  /** The account a registration creates. `id` and `shipId` stand for the
      two separate `Date.now()` readings that number the account and its
      starter ship. */
  function NewUser(callsign: string, password: string, id: int, shipId: int, joinDate: int): User {
    User(id, callsign, password, Pending, Some(AvatarFor(callsign)), joinDate, RecruitRole,
         [UserShip(shipId, StarterModel, None)])
  }

  datatype Registration = Registration(users: seq<User>, success: bool, message: string)

  /** Registering: a callsign taken ignoring case fails with the taken message
      and leaves the roster unchanged; any other callsign appends exactly one
      pending "Recruit" account owning one "Aurora MR". */
  function Register(users: seq<User>, callsign: string, password: string, id: int, shipId: int, joinDate: int): (r: Registration)
    ensures CallsignTaken(users, callsign) ==> r == Registration(users, false, TakenMessage)
    ensures !CallsignTaken(users, callsign) ==>
      && r.success && r.message == SubmittedMessage
      && |r.users| == |users| + 1 && r.users[..|users|] == users
      && var u := r.users[|users|];
         && u.id == id && u.callsign == callsign && u.password == password
         && u.accessStatus == Pending && u.role == RecruitRole
         && u.avatarUrl == Some(AvatarFor(callsign)) && u.joinDate == joinDate
         && u.ships == [UserShip(shipId, StarterModel, None)]
  {
    if CallsignTaken(users, callsign) then Registration(users, false, TakenMessage)
    else Registration(users + [NewUser(callsign, password, id, shipId, joinDate)], true, SubmittedMessage)
  }

  /** Registration keeps callsigns unique. */
  lemma RegisterKeepsCallsignsUnique(users: seq<User>, callsign: string, password: string, id: int, shipId: int, joinDate: int)
    requires UniqueCallsigns(users)
    ensures UniqueCallsigns(Register(users, callsign, password, id, shipId, joinDate).users)
  {
    var r := Register(users, callsign, password, id, shipId, joinDate).users;
    if !CallsignTaken(users, callsign) {
      forall i, j | 0 <= i < |r| && 0 <= j < |r| && EqualsIgnoreCase(r[i].callsign, r[j].callsign)
        ensures i == j
      {
        if i < |users| && j < |users| {
          assert r[i] == users[i] && r[j] == users[j];
        }
      }
    }
  }

  /** A fresh registration cannot log in before it is approved. */
  lemma RegisteredIsPending(users: seq<User>, callsign: string, password: string, id: int, shipId: int, joinDate: int)
    requires UniqueCallsigns(users)
    requires !CallsignTaken(users, callsign)
    ensures Authenticate(Register(users, callsign, password, id, shipId, joinDate).users, callsign, password).None?
  {
    var r := Register(users, callsign, password, id, shipId, joinDate).users;
    RegisterKeepsCallsignsUnique(users, callsign, password, id, shipId, joinDate);
    AuthenticateIff(r, callsign, password);
    assert forall k :: 0 <= k < |users| ==> r[k] == users[k];
  }

  /** Sets the access status of every account with id `id`. */
  function SetAccess(users: seq<User>, id: int, status: AccessStatus): (r: seq<User>)
    ensures |r| == |users|
    ensures forall i :: 0 <= i < |users| ==>
      r[i] == if users[i].id == id then users[i].(accessStatus := status) else users[i]
  {
    seq(|users|, i requires 0 <= i < |users| =>
      if users[i].id == id then users[i].(accessStatus := status) else users[i])
  }

  /** Approving: every account with that id becomes approved, whatever its
      status was; every other account and every other field is unchanged. */
  function Approve(users: seq<User>, id: int): (r: seq<User>)
    ensures |r| == |users|
    ensures forall i :: 0 <= i < |users| ==>
      r[i] == if users[i].id == id then users[i].(accessStatus := Approved) else users[i]
  {
    SetAccess(users, id, Approved)
  }

  /** Denying: every account with that id becomes denied, whatever its status
      was; every other account and every other field is unchanged. */
  function Deny(users: seq<User>, id: int): (r: seq<User>)
    ensures |r| == |users|
    ensures forall i :: 0 <= i < |users| ==>
      r[i] == if users[i].id == id then users[i].(accessStatus := Denied) else users[i]
  {
    SetAccess(users, id, Denied)
  }

  /** Setting a status twice is setting it once, and the last setting wins. */
  lemma SetAccessLastWins(users: seq<User>, id: int, first: AccessStatus, second: AccessStatus)
    ensures SetAccess(SetAccess(users, id, first), id, second) == SetAccess(users, id, second)
  {
    var a := SetAccess(SetAccess(users, id, first), id, second);
    var b := SetAccess(users, id, second);
    assert forall i :: 0 <= i < |a| ==> a[i] == b[i];
  }

  /** Removing: `users.filter(u => u.id !== id)`. Exactly the accounts with a
      different id are kept, in their order. */
  function Remove(users: seq<User>, id: int): (r: seq<User>)
    ensures |r| <= |users|
    ensures forall u :: u in r <==> u in users && u.id != id
    ensures (forall i :: 0 <= i < |users| ==> users[i].id != id) ==> r == users
    decreases |users|
  {
    if |users| == 0 then []
    else (if users[0].id != id then [users[0]] else []) + Remove(users[1..], id)
  }

  /** Removing an account that was just registered under a fresh id restores
      the roster. */
  lemma RemoveUndoesRegister(users: seq<User>, callsign: string, password: string, id: int, shipId: int, joinDate: int)
    requires forall i :: 0 <= i < |users| ==> users[i].id != id
    ensures Remove(Register(users, callsign, password, id, shipId, joinDate).users, id) == users
  {
    if !CallsignTaken(users, callsign) {
      RemoveAppend(users, [NewUser(callsign, password, id, shipId, joinDate)], id);
    }
  }

  lemma {:induction false} RemoveAppend(a: seq<User>, b: seq<User>, id: int)
    ensures Remove(a + b, id) == Remove(a, id) + Remove(b, id)
    decreases |a|
  {
    if |a| > 0 {
      assert (a + b)[1..] == a[1..] + b;
      RemoveAppend(a[1..], b, id);
    } else {
      assert a + b == b;
    }
  }

  /** Removing keeps callsigns unique. */
  lemma RemoveKeepsCallsignsUnique(users: seq<User>, id: int)
    requires UniqueCallsigns(users)
    ensures UniqueCallsigns(Remove(users, id))
  {
    SubsequenceKeepsUnique(users, Remove(users, id), id);
  }

  lemma {:induction false} SubsequenceKeepsUnique(users: seq<User>, r: seq<User>, id: int)
    requires UniqueCallsigns(users)
    requires r == Remove(users, id)
    ensures UniqueCallsigns(r)
    decreases |users|
  {
    if |users| > 0 {
      var tail := users[1..];
      assert UniqueCallsigns(tail) by {
        forall i, j | 0 <= i < |tail| && 0 <= j < |tail| && EqualsIgnoreCase(tail[i].callsign, tail[j].callsign)
          ensures i == j
        {
          assert users[i + 1] == tail[i] && users[j + 1] == tail[j];
        }
      }
      SubsequenceKeepsUnique(tail, Remove(tail, id), id);
      if users[0].id != id {
        forall k | 0 <= k < |Remove(tail, id)|
          ensures !EqualsIgnoreCase(users[0].callsign, Remove(tail, id)[k].callsign)
        {
          var u := Remove(tail, id)[k];
          assert u in Remove(tail, id);
          assert u in tail;
          var j :| 0 <= j < |tail| && tail[j] == u;
          assert users[j + 1] == u;
        }
      }
    }
  }

  /** `users.map(u => u.callsign === callsign ? {...u, avatarUrl} : u)`:
      only the accounts with exactly that callsign get the new avatar. */
  function UpdateAvatar(users: seq<User>, callsign: string, avatarUrl: string): (r: seq<User>)
    ensures |r| == |users|
    ensures forall i :: 0 <= i < |users| ==>
      r[i] == if users[i].callsign == callsign then users[i].(avatarUrl := Some(avatarUrl)) else users[i]
  {
    seq(|users|, i requires 0 <= i < |users| =>
      if users[i].callsign == callsign then users[i].(avatarUrl := Some(avatarUrl)) else users[i])
  }

  /** Two avatar changes in a row: the second picture is what remains. */
  lemma UpdateAvatarLastWins(users: seq<User>, callsign: string, first: string, second: string)
    ensures UpdateAvatar(UpdateAvatar(users, callsign, first), callsign, second) == UpdateAvatar(users, callsign, second)
  {
    var a := UpdateAvatar(UpdateAvatar(users, callsign, first), callsign, second);
    var b := UpdateAvatar(users, callsign, second);
    assert forall i :: 0 <= i < |a| ==> a[i] == b[i];
  }

  /** Only the accounts with exactly that callsign get the new role. */
  function UpdateRole(users: seq<User>, callsign: string, role: string): (r: seq<User>)
    ensures |r| == |users|
    ensures forall i :: 0 <= i < |users| ==>
      r[i] == if users[i].callsign == callsign then users[i].(role := role) else users[i]
  {
    seq(|users|, i requires 0 <= i < |users| =>
      if users[i].callsign == callsign then users[i].(role := role) else users[i])
  }

  /** Two role edits in a row: the second one is what remains. */
  lemma UpdateRoleLastWins(users: seq<User>, callsign: string, first: string, second: string)
    ensures UpdateRole(UpdateRole(users, callsign, first), callsign, second) == UpdateRole(users, callsign, second)
  {
    var a := UpdateRole(UpdateRole(users, callsign, first), callsign, second);
    var b := UpdateRole(users, callsign, second);
    assert forall i :: 0 <= i < |a| ==> a[i] == b[i];
  }

  /** Adding a hangar ship: each account with exactly that callsign gets the
      ship `(shipId, model, imageUrl)` appended at the end of its hangar.
      `shipId` stands for `Date.now()`. */
  function AddShip(users: seq<User>, callsign: string, model: string, imageUrl: Option<string>, shipId: int): (r: seq<User>)
    ensures |r| == |users|
    ensures forall i :: 0 <= i < |users| ==>
      r[i] == if users[i].callsign == callsign
              then users[i].(ships := users[i].ships + [UserShip(shipId, model, imageUrl)])
              else users[i]
  {
    seq(|users|, i requires 0 <= i < |users| =>
      if users[i].callsign == callsign
      then users[i].(ships := users[i].ships + [UserShip(shipId, model, imageUrl)])
      else users[i])
  }

  /** `ships.filter(s => s.id !== shipId)`. */
  function WithoutShip(ships: seq<UserShip>, shipId: int): (r: seq<UserShip>)
    ensures |r| <= |ships|
    ensures forall s :: s in r <==> s in ships && s.id != shipId
    ensures (forall i :: 0 <= i < |ships| ==> ships[i].id != shipId) ==> r == ships
    decreases |ships|
  {
    if |ships| == 0 then []
    else (if ships[0].id != shipId then [ships[0]] else []) + WithoutShip(ships[1..], shipId)
  }

  /** Removing a hangar ship: each account with exactly that callsign loses
      every ship with that id; every other account is unchanged. */
  function RemoveShip(users: seq<User>, callsign: string, shipId: int): (r: seq<User>)
    ensures |r| == |users|
    ensures forall i :: 0 <= i < |users| ==>
      && r[i].ships == (if users[i].callsign == callsign then WithoutShip(users[i].ships, shipId) else users[i].ships)
      && r[i] == users[i].(ships := r[i].ships)
  {
    seq(|users|, i requires 0 <= i < |users| =>
      if users[i].callsign == callsign
      then users[i].(ships := WithoutShip(users[i].ships, shipId))
      else users[i])
  }

  lemma {:induction false} WithoutShipAppend(a: seq<UserShip>, b: seq<UserShip>, shipId: int)
    ensures WithoutShip(a + b, shipId) == WithoutShip(a, shipId) + WithoutShip(b, shipId)
    decreases |a|
  {
    if |a| > 0 {
      assert (a + b)[1..] == a[1..] + b;
      WithoutShipAppend(a[1..], b, shipId);
    } else {
      assert a + b == b;
    }
  }

  /** Removing a ship just added under a fresh id restores the roster. */
  lemma RemoveShipUndoesAddShip(users: seq<User>, callsign: string, model: string, imageUrl: Option<string>, shipId: int)
    requires forall i, k :: 0 <= i < |users| && 0 <= k < |users[i].ships| ==> users[i].ships[k].id != shipId
    ensures RemoveShip(AddShip(users, callsign, model, imageUrl, shipId), callsign, shipId) == users
  {
    var added := AddShip(users, callsign, model, imageUrl, shipId);
    var r := RemoveShip(added, callsign, shipId);
    forall i | 0 <= i < |users|
      ensures r[i] == users[i]
    {
      if users[i].callsign == callsign {
        WithoutShipAppend(users[i].ships, [UserShip(shipId, model, imageUrl)], shipId);
        assert WithoutShip(users[i].ships, shipId) == users[i].ships;
      }
    }
  }

  /** The edits by id or callsign leave every callsign where it was, so they
      keep callsigns unique. */
  lemma EditsKeepCallsignsUnique(users: seq<User>, r: seq<User>)
    requires UniqueCallsigns(users)
    requires |r| == |users| && forall i :: 0 <= i < |users| ==> r[i].callsign == users[i].callsign
    ensures UniqueCallsigns(r)
  {
  }

  /** `users.filter(u => u.accessStatus === 'approved')`, in order. */
  function ApprovedUsers(users: seq<User>): (r: seq<User>)
    ensures |r| <= |users|
    ensures forall u :: u in r <==> u in users && u.accessStatus == Approved
    decreases |users|
  {
    if |users| == 0 then []
    else (if users[0].accessStatus == Approved then [users[0]] else []) + ApprovedUsers(users[1..])
  }

  /** Each approved account is kept exactly as often as the roster holds
      it, which is what the member count adds up. */
  lemma {:induction false} ApprovedUsersCounts(users: seq<User>)
    ensures forall u ::
      multiset(ApprovedUsers(users))[u] == if u.accessStatus == Approved then multiset(users)[u] else 0
    decreases |users|
  {
    if |users| > 0 {
      var head := if users[0].accessStatus == Approved then [users[0]] else [];
      assert users == [users[0]] + users[1..];
      assert ApprovedUsers(users) == head + ApprovedUsers(users[1..]);
      ApprovedUsersCounts(users[1..]);
    }
  }

  /** The approved accounts of a joined roster are those of the first part
      followed by those of the second, in roster order. */
  lemma {:induction false} ApprovedUsersAppend(a: seq<User>, b: seq<User>)
    ensures ApprovedUsers(a + b) == ApprovedUsers(a) + ApprovedUsers(b)
    decreases |a|
  {
    if |a| > 0 {
      assert (a + b)[1..] == a[1..] + b;
      ApprovedUsersAppend(a[1..], b);
    } else {
      assert a + b == b;
    }
  }

  /** The sum of hangar sizes over a list of accounts. */
  function HangarTotal(users: seq<User>): nat
    decreases |users|
  {
    if |users| == 0 then 0 else |users[0].ships| + HangarTotal(users[1..])
  }

  /** The dashboard's member count. */
  function MemberCount(users: seq<User>): nat {
    |ApprovedUsers(users)|
  }

  /** The dashboard's ship total: hangar sizes summed over approved accounts. */
  function TotalPlayerShips(users: seq<User>): nat {
    HangarTotal(ApprovedUsers(users))
  }

  /** The aggregates split over concatenation, and an account that is not
      approved adds nothing to either while an approved one adds one member
      and its whole hangar. */
  lemma {:induction false} AggregatesAppend(a: seq<User>, b: seq<User>)
    ensures MemberCount(a + b) == MemberCount(a) + MemberCount(b)
    ensures TotalPlayerShips(a + b) == TotalPlayerShips(a) + TotalPlayerShips(b)
    decreases |a|
  {
    if |a| > 0 {
      assert a + b == [a[0]] + (a[1..] + b);
      assert a == [a[0]] + a[1..];
      AggregatesAppend(a[1..], b);
      AggregatesCons(a[0], a[1..] + b);
      AggregatesCons(a[0], a[1..]);
    } else {
      assert a + b == b;
    }
  }

  /** What one account contributes to the aggregates. */
  lemma SingleAccountAggregates(u: User)
    ensures MemberCount([u]) == if u.accessStatus == Approved then 1 else 0
    ensures TotalPlayerShips([u]) == if u.accessStatus == Approved then |u.ships| else 0
  {
    assert [u][1..] == [];
    assert HangarTotal([u]) == |u.ships|;
  }

  /** Putting one account in front of a roster adds exactly its own
      contribution. */
  lemma AggregatesCons(u: User, rest: seq<User>)
    ensures MemberCount([u] + rest) == MemberCount(rest) + (if u.accessStatus == Approved then 1 else 0)
    ensures TotalPlayerShips([u] + rest) == TotalPlayerShips(rest) + (if u.accessStatus == Approved then |u.ships| else 0)
  {
    var s := [u] + rest;
    assert s[0] == u && s[1..] == rest;
    if u.accessStatus == Approved {
      var x := [u] + ApprovedUsers(rest);
      assert ApprovedUsers(s) == x;
      assert x[0] == u && x[1..] == ApprovedUsers(rest);
    } else {
      assert ApprovedUsers(s) == ApprovedUsers(rest);
    }
  }

  /** Approving the one pending account with a given id adds one member and
      that account's whole hangar to the dashboard totals. */
  lemma ApproveRaisesAggregates(before: seq<User>, u: User, after: seq<User>)
    requires u.accessStatus == Pending
    requires forall i :: 0 <= i < |before| ==> before[i].id != u.id
    requires forall i :: 0 <= i < |after| ==> after[i].id != u.id
    ensures var users := before + [u] + after;
      && MemberCount(Approve(users, u.id)) == MemberCount(users) + 1
      && TotalPlayerShips(Approve(users, u.id)) == TotalPlayerShips(users) + |u.ships|
  {
    var users := before + [u] + after;
    var approved := Approve(users, u.id);
    assert approved == before + [u.(accessStatus := Approved)] + after;
    AggregatesAppend(before + [u], after);
    AggregatesAppend(before, [u]);
    AggregatesAppend(before + [u.(accessStatus := Approved)], after);
    AggregatesAppend(before, [u.(accessStatus := Approved)]);
    SingleAccountAggregates(u);
    SingleAccountAggregates(u.(accessStatus := Approved));
  }

  /** The worked example of the dashboard: an approved account with two ships
      and a pending one with three give one member and two ships. */
  lemma PendingShipsNotCounted(a: User, b: User)
    requires a.accessStatus == Approved && |a.ships| == 2
    requires b.accessStatus == Pending && |b.ships| == 3
    ensures MemberCount([a, b]) == 1 && TotalPlayerShips([a, b]) == 2
  {
    assert [a, b] == [a] + [b];
    AggregatesAppend([a], [b]);
    SingleAccountAggregates(a);
    SingleAccountAggregates(b);
  }
}

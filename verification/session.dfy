/** The session half of the application shell: who is logged in, whether
    they are the administrator, which screen is shown, the fleet catalogue
    held for the session, and the seed data the process starts from. */
module Session {
  import opened Common
  import opened Text
  import opened Types
  import Accounts
  import Raffles

  /** The one callsign that carries administrator rights. */
  const AdminCallsign: string := "ADMIN"

  datatype View = DashboardView | MembersView | FleetView | OperationsView | ChatView

  datatype AppState = AppState(
    activeView: View,
    isAuthenticated: bool,
    userCallsign: string,
    isAdmin: bool,
    users: seq<User>,
    raffles: seq<Raffle>,
    entries: seq<RaffleEntry>,
    fleet: seq<Ship>)

  datatype LoginResult = LoginResult(state: AppState, success: bool)

  /** Logging in. On success the session takes the callsign as stored (not as
      typed), becomes authenticated, and is the administrator exactly when
      that stored callsign is "ADMIN"; on failure nothing changes. */
  function Login(s: AppState, callsign: string, password: string): (r: LoginResult)
    ensures r.success <==> Accounts.Authenticate(s.users, callsign, password).Some?
    ensures !r.success ==> r.state == s
    ensures r.success ==>
      var u := Accounts.Authenticate(s.users, callsign, password).value;
      && u in s.users
      && r.state == s.(isAuthenticated := true, userCallsign := u.callsign, isAdmin := u.callsign == AdminCallsign)
  {
    match Accounts.Authenticate(s.users, callsign, password)
    case None => LoginResult(s, false)
    case Some(u) =>
      LoginResult(s.(isAuthenticated := true, userCallsign := u.callsign, isAdmin := u.callsign == AdminCallsign), true)
  }

  /** With callsigns unique ignoring case, logging in succeeds exactly when an
      approved account matches the callsign ignoring case and the password
      exactly; the session then carries that account's stored callsign, and
      administrator rights exactly when that callsign is "ADMIN". */
  lemma LoginIff(s: AppState, callsign: string, password: string)
    requires Accounts.UniqueCallsigns(s.users)
    ensures var r := Login(s, callsign, password);
      r.success <==> (exists i :: 0 <= i < |s.users| && Accounts.CredentialsMatch(s.users[i], callsign, password)
                                  && s.users[i].accessStatus == Approved)
    ensures var r := Login(s, callsign, password);
      forall i :: (0 <= i < |s.users| && Accounts.CredentialsMatch(s.users[i], callsign, password)
                   && s.users[i].accessStatus == Approved) ==>
        (r.state.userCallsign == s.users[i].callsign && (r.state.isAdmin <==> s.users[i].callsign == AdminCallsign))
  {
    Accounts.AuthenticateIff(s.users, callsign, password);
  }

  /** Logging out clears the identity, the administrator flag and the fleet
      catalogue and returns to the dashboard; the roster and raffles stay. */
  function Logout(s: AppState): (r: AppState)
    ensures !r.isAuthenticated && !r.isAdmin && r.userCallsign == ""
    ensures r.activeView == DashboardView && r.fleet == []
    ensures r.users == s.users && r.raffles == s.raffles && r.entries == s.entries
  {
    s.(isAuthenticated := false, isAdmin := false, userCallsign := "", activeView := DashboardView, fleet := [])
  }

  /** The condition under which the shell fetches the fleet catalogue when the
      authentication flag changes: logged in and no catalogue held. */
  predicate ShouldLoadFleet(s: AppState) {
    s.isAuthenticated && |s.fleet| == 0
  }

  /** Because logging out drops the catalogue, the next successful login
      always fetches it again, and logging out never fetches. */
  lemma LogoutThenLoginReloadsFleet(s: AppState, callsign: string, password: string)
    ensures !ShouldLoadFleet(Logout(s))
    ensures var r := Login(Logout(s), callsign, password);
      r.success ==> ShouldLoadFleet(r.state)
  {
  }

  /** The dashboard figures the shell hands down: the number of approved
      accounts and the ships in their hangars. */
  datatype DashboardFigures = DashboardFigures(totalMembers: nat, totalShips: nat)

  function DashboardFor(s: AppState): (r: DashboardFigures)
    ensures r.totalMembers == |Accounts.ApprovedUsers(s.users)|
    ensures r.totalMembers <= |s.users|
    ensures r.totalShips == Accounts.HangarTotal(Accounts.ApprovedUsers(s.users))
  {
    DashboardFigures(Accounts.MemberCount(s.users), Accounts.TotalPlayerShips(s.users))
  }

  /** The accounts the process starts with. `now` is the join date of the
      two accounts the seed stamps with the current time. */
  function InitialUsers(now: int): seq<User> {
    [ User(999, "ADMIN", "Gracin8386", Approved, Some("https://picsum.photos/seed/ADMIN/100/100"),
           1577880000000, "Org Leader",
           [UserShip(99901, "Aegis Javelin", Some("https://picsum.photos/seed/Aegis-Javelin/200/100")),
            UserShip(99902, "Anvil Liberator", None)]),
      User(1, "Recker", "password123", Approved, Some("https://picsum.photos/seed/Recker/100/100"),
           1642248000000, "Combat Pilot / Squadron Leader",
           [UserShip(101, "Aegis Sabre", Some("https://picsum.photos/seed/Aegis-Sabre/200/100")),
            UserShip(102, "Anvil F7C-M Super Hornet", None),
            UserShip(103, "Origin 890 Jump", None)]),
      User(2, "Viper", "password123", Approved, Some("https://picsum.photos/seed/Viper/100/100"),
           1692556200000, "Explorer / Data Runner",
           [UserShip(201, "Anvil Carrack", Some("https://picsum.photos/seed/Anvil-Carrack/200/100")),
            UserShip(202, "Drake Herald", None)]),
      User(3, "Newbie", "password123", Pending, Some("https://picsum.photos/seed/Newbie/100/100"),
           now, "Recruit", [UserShip(301, "Aurora MR", None)]),
      User(4, "Washout", "password123", Denied, Some("https://picsum.photos/seed/Washout/100/100"),
           now, "N/A", [])
    ]
  }

  /** The raffles the process starts with; `nextMonth` is one month from the
      start of the process. */
  function InitialRaffles(nextMonth: int): seq<Raffle> {
    [ Raffle(1, "Aegis Redeemer Ship", nextMonth, true, None),
      Raffle(2, "1,000,000 aUEC", 1722470399000, false, Some("Viper")) ]
  }

  function InitialState(now: int, nextMonth: int): AppState {
    AppState(DashboardView, false, "", false, InitialUsers(now), InitialRaffles(nextMonth), [], [])
  }

  /** The seed roster has callsigns unique ignoring case. */
  lemma InitialUsersUnique(now: int)
    ensures Accounts.UniqueCallsigns(InitialUsers(now))
  {
    var us := InitialUsers(now);
    forall i, j | 0 <= i < |us| && 0 <= j < |us| && i != j
      ensures !EqualsIgnoreCase(us[i].callsign, us[j].callsign)
    {
      DistinctSeedCallsigns(us[i].callsign, us[j].callsign);
    }
  }

  /** The seed raffles keep the one-active invariant, with the first one open. */
  lemma InitialRafflesOneActive(nextMonth: int)
    ensures Raffles.AtMostOneActive(InitialRaffles(nextMonth))
    ensures Raffles.CurrentRaffle(InitialRaffles(nextMonth)) == Some(InitialRaffles(nextMonth)[0])
  {
  }

  /** The seed shows three members with seven ships on the dashboard: the
      pending and the denied account do not count. */
  lemma InitialDashboard(now: int, nextMonth: int)
    ensures DashboardFor(InitialState(now, nextMonth)) == DashboardFigures(3, 7)
  {
    SeedShapedAggregates(InitialUsers(now));
  }

  /** The aggregates of any five accounts shaped like the seed: approved with
      two, three and two ships, then one pending and one denied. */
  lemma SeedShapedAggregates(us: seq<User>)
    requires |us| == 5
    requires us[0].accessStatus == Approved && |us[0].ships| == 2
    requires us[1].accessStatus == Approved && |us[1].ships| == 3
    requires us[2].accessStatus == Approved && |us[2].ships| == 2
    requires us[3].accessStatus == Pending && us[4].accessStatus == Denied
    ensures Accounts.MemberCount(us) == 3 && Accounts.TotalPlayerShips(us) == 7
  {
    assert us == [us[0]] + us[1..];
    assert us[1..] == [us[1]] + us[2..];
    assert us[2..] == [us[2]] + us[3..];
    assert us[3..] == [us[3]] + us[4..];
    assert us[4..] == [us[4]] + [];
    assert Accounts.MemberCount([]) == 0 && Accounts.TotalPlayerShips([]) == 0;
    Accounts.AggregatesCons(us[4], []);
    Accounts.AggregatesCons(us[3], us[4..]);
    Accounts.AggregatesCons(us[2], us[3..]);
    Accounts.AggregatesCons(us[1], us[2..]);
    Accounts.AggregatesCons(us[0], us[1..]);
  }

  lemma DistinctSeedCallsigns(a: string, b: string)
    requires a in {"ADMIN", "Recker", "Viper", "Newbie", "Washout"}
    requires b in {"ADMIN", "Recker", "Viper", "Newbie", "Washout"}
    requires a != b
    ensures !EqualsIgnoreCase(a, b)
  {
    if |a| == |b| {
      assert ToLower(a)[0] == LowerChar(a[0]) && ToLower(b)[0] == LowerChar(b[0]);
    }
  }

  /** A registration followed by the administrator's approval makes the
      account able to log in with its callsign typed in any case. The
      starting roster must have unique callsigns and no account with the
      new id. */
  lemma RegisterApproveLogin(s: AppState, callsign: string, typed: string, password: string, id: int, shipId: int, joinDate: int)
    requires Accounts.UniqueCallsigns(s.users)
    requires forall i :: 0 <= i < |s.users| ==> s.users[i].id != id
    requires !Accounts.CallsignTaken(s.users, callsign)
    requires EqualsIgnoreCase(typed, callsign)
    ensures var registered := Accounts.Register(s.users, callsign, password, id, shipId, joinDate).users;
      var r := Login(s.(users := Accounts.Approve(registered, id)), typed, password);
      r.success && r.state.userCallsign == callsign
  {
    var registered := Accounts.Register(s.users, callsign, password, id, shipId, joinDate).users;
    var approved := Accounts.Approve(registered, id);
    Accounts.RegisterKeepsCallsignsUnique(s.users, callsign, password, id, shipId, joinDate);
    Accounts.EditsKeepCallsignsUnique(registered, approved);
    var k := |s.users|;
    assert approved[k] == registered[k].(accessStatus := Approved);
    assert Accounts.CredentialsMatch(approved[k], typed, password);
    LoginIff(s.(users := approved), typed, password);
  }
}

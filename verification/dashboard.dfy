/** The dashboard: the raffle countdown, the service-status indicator, the
    raffle entry button. */
module Dashboard {
  import opened Common
  import opened Types
  import Raffles

  const MsPerSecond: int := 1000
  const MsPerMinute: int := 60 * MsPerSecond
  const MsPerHour: int := 60 * MsPerMinute
  const MsPerDay: int := 24 * MsPerHour

  datatype TimeLeft = TimeLeft(days: int, hours: int, minutes: int, seconds: int)

  /** The milliseconds a countdown stands for. */
  function TotalMs(t: TimeLeft): int {
    t.days * MsPerDay + t.hours * MsPerHour + t.minutes * MsPerMinute + t.seconds * MsPerSecond
  }

  /** The countdown for `difference` milliseconds to the end date: all zeros
      once the end is reached, otherwise whole days and the hours, minutes
      and seconds within them. The fields are in range and together they
      account for the difference to within one second, rounding down. */
  function CalculateTimeLeft(difference: int): (t: TimeLeft)
    ensures difference <= 0 ==> t == TimeLeft(0, 0, 0, 0)
    ensures t.days >= 0 && 0 <= t.hours < 24 && 0 <= t.minutes < 60 && 0 <= t.seconds < 60
    ensures difference > 0 ==> TotalMs(t) <= difference < TotalMs(t) + MsPerSecond
  {
    if difference <= 0 then TimeLeft(0, 0, 0, 0)
    else
      var t := TimeLeft(difference / MsPerDay, (difference / MsPerHour) % 24,
                        (difference / MsPerMinute) % 60, (difference / MsPerSecond) % 60);
      CountdownAddsUp(difference);
      t
  }

  /** Breaking a positive difference into days, hours, minutes and seconds
      loses only the milliseconds below a second. */
  lemma CountdownAddsUp(difference: int)
    requires difference > 0
    ensures var t := TimeLeft(difference / MsPerDay, (difference / MsPerHour) % 24,
                              (difference / MsPerMinute) % 60, (difference / MsPerSecond) % 60);
      TotalMs(t) == (difference / MsPerSecond) * MsPerSecond
  {
    var s := difference / MsPerSecond;
    var m := s / 60;
    var h := m / 60;
    assert difference / MsPerMinute == m;
    assert difference / MsPerHour == h;
    assert difference / MsPerDay == h / 24;
    assert s == m * 60 + s % 60;
    assert m == h * 60 + m % 60;
    assert h == (h / 24) * 24 + h % 24;
  }

  /** Whether the countdown still shows figures rather than "DRAWING COMPLETE". */
  predicate HasTimeLeft(t: TimeLeft) {
    t.days > 0 || t.hours > 0 || t.minutes > 0 || t.seconds > 0
  }

  /** The figures stay up exactly while at least a whole second remains. */
  lemma HasTimeLeftIff(difference: int)
    ensures HasTimeLeft(CalculateTimeLeft(difference)) <==> difference >= MsPerSecond
  {
    var t := CalculateTimeLeft(difference);
    if difference > 0 && !HasTimeLeft(t) {
      assert TotalMs(t) == 0;
    }
  }

  /** The indicator's caption and colour classes. */
  datatype StatusDetails = StatusDetails(text: string, color: string, textColor: string)

  const UnknownDetails: StatusDetails := StatusDetails("Unknown", "bg-gray-600", "text-gray-500")

  /** The indicator for a fetched status, or "Unknown" when none came back.
      Every status has a caption of its own; degraded performance and a
      partial outage share the yellow colours. */
  function GetStatusDetails(status: Option<ServerStatusValue>): (r: StatusDetails)
    ensures r.text == "Unknown" <==> status.None?
    ensures status.None? ==> r == UnknownDetails
  {
    match status
    case None => UnknownDetails
    case Some(v) => Details(v)
  }

  function Details(v: ServerStatusValue): (r: StatusDetails)
    ensures r.text != "Unknown"
  {
    match v
    case Operational => StatusDetails("Operational", "bg-green-500", "text-green-400")
    case DegradedPerformance => StatusDetails("Degraded", "bg-yellow-500", "text-yellow-400")
    case PartialOutage => StatusDetails("Partial Outage", "bg-yellow-500", "text-yellow-400")
    case MajorOutage => StatusDetails("Major Outage", "bg-red-500", "text-red-400")
    case UnderMaintenance => StatusDetails("Maintenance", "bg-blue-500", "text-blue-400")
  }

  /** Different statuses, and no status, are told apart by the caption alone. */
  lemma StatusCaptionsDistinct(a: Option<ServerStatusValue>, b: Option<ServerStatusValue>)
    ensures GetStatusDetails(a).text == GetStatusDetails(b).text <==> a == b
  {
  }

  /** The raffle button: disabled once entered or once the end date has
      passed; its caption confirms an entry. */
  datatype EnterButton = EnterButton(disabled: bool, caption: string)

  const EnteredCaption: string := "Entry Confirmed"
  const EnterCaption: string := "Enter Raffle"

  function RaffleButton(hasEntered: bool, endDate: int, now: int): (b: EnterButton)
    ensures b.disabled <==> hasEntered || endDate < now
    ensures b.caption == EnteredCaption <==> hasEntered
    ensures !hasEntered ==> b.caption == EnterCaption
  {
    EnterButton(hasEntered || endDate < now, if hasEntered then EnteredCaption else EnterCaption)
  }

  /** After entering the current raffle, its button is disabled and confirms
      the entry, whatever the clock says. */
  lemma EnteringDisablesButton(raffles: seq<Raffle>, entries: seq<RaffleEntry>, callsign: string, now: int)
    requires Raffles.CurrentRaffle(raffles).Some?
    ensures var after := Raffles.EnterRaffle(raffles, entries, callsign);
      var b := RaffleButton(Raffles.HasEntered(raffles, after, callsign), Raffles.CurrentRaffle(raffles).value.endDate, now);
      b.disabled && b.caption == EnteredCaption
  {
    Raffles.EnterMarksEntered(raffles, entries, callsign);
  }
}

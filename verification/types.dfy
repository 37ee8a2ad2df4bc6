/** The records the application keeps in memory. Timestamps are integers
    (milliseconds since the epoch); ids are integers; optional fields are
    `Option`s. */
module Types {
  import opened Common

  /** A member record produced by the content generator; the chat screen uses
      these as the pool of conversation partners. */
  datatype MemberStatus = Online | Offline
  datatype Member = Member(
    callsign: string,
    realName: string,
    primaryRoles: seq<string>,
    status: MemberStatus,
    avatarUrl: string,
    preferredContact: string)

  /** A ship of the organisation-wide fleet catalogue. Its name is its key. */
  datatype ShipRole = Capital | Explorer | Fighter | Industrial | Support
  datatype ShipStatus = InService | UnderRepair | OnMission
  datatype Ship = Ship(
    name: string,
    model: string,
    role: ShipRole,
    status: ShipStatus,
    imageUrl: string,
    description: string)

  /** The service status keywords the status parser accepts. */
  datatype ServerStatusValue =
    | Operational
    | DegradedPerformance
    | PartialOutage
    | MajorOutage
    | UnderMaintenance

  /** The lower-case keyword that names a status. */
  function Keyword(v: ServerStatusValue): string {
    match v
    case Operational => "operational"
    case DegradedPerformance => "degraded_performance"
    case PartialOutage => "partial_outage"
    case MajorOutage => "major_outage"
    case UnderMaintenance => "under_maintenance"
  }

  datatype MessageStatus = Sent | Read

  /** One line of the chat transcript. `timestamp` is the already formatted
      clock time the screen shows. */
  datatype ChatMessage = ChatMessage(
    callsign: string,
    message: Option<string>,
    gifUrl: Option<string>,
    isUser: bool,
    timestamp: string,
    avatarUrl: string,
    status: Option<MessageStatus>)

  /** A ship in one account's hangar. */
  datatype UserShip = UserShip(id: int, model: string, imageUrl: Option<string>)

  datatype AccessStatus = Pending | Approved | Denied

  /** A registered account. */
  datatype User = User(
    id: int,
    callsign: string,
    password: string,
    accessStatus: AccessStatus,
    avatarUrl: Option<string>,
    joinDate: int,
    role: string,
    ships: seq<UserShip>)

  /** A raffle; `winner` is set when it is drawn. */
  datatype Raffle = Raffle(
    id: int,
    prize: string,
    endDate: int,
    isActive: bool,
    winner: Option<string>)

  /** One account's entry in one raffle, by raffle id and callsign. */
  datatype RaffleEntry = RaffleEntry(raffleId: int, userCallsign: string)
}

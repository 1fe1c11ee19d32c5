/** The values that travel through the export pipeline. */
module EventModel {
  import opened Text

  /** A UTC time in civil fields, as the printer shows it: to the second, years of four digits. */
  datatype Civil = Civil(year: nat, month: nat, day: nat, hour: nat, minute: nat, second: nat)

  type Stamp = c: Civil | c.year < 10000 && c.month < 100 && c.day < 100 && c.hour < 100 && c.minute < 100 &&
    c.second < 100
    witness Civil(1970, 1, 1, 0, 0, 0)

  /** One moment: the count of nanoseconds that orders it, and the fields it prints. */
  datatype Instant = Instant(nanos: int, utc: Stamp)

  /** Seconds since the epoch, rounded down as Go's `Unix` does. */
  function Unix(t: Instant): int {
    t.nanos / 1_000_000_000
  }

  function Before(a: Instant, b: Instant): bool {
    a.nanos < b.nanos
  }

  datatype EventResponses = EventResponses(
    accepted: Option<seq<string>>,
    declined: Option<seq<string>>,
    waitinglist: Option<seq<string>>,
    unconfirmed: Option<seq<string>>,
    unanswered: Option<seq<string>>)

  /** An event as the Spond API returns it. */
  datatype Event = Event(
    id: string,
    heading: string,
    start: Instant,
    end: Instant,
    groupID: Option<string>,
    subGroupID: Option<string>,
    responses: Option<EventResponses>)

  datatype SubGroup = SubGroup(id: Option<string>)

  datatype Group = Group(id: string, name: string, subGroups: Option<seq<SubGroup>>)

  /** An event as the web server shows and exports it. */
  datatype EventView = EventView(
    eventID: string,
    heading: string,
    startAt: Instant,
    endAt: Instant,
    groupID: string,
    groupName: string,
    status: string,
    statusKey: string,
    statusCSS: string)
}

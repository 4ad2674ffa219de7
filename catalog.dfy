/**
 * The records the core passes around: a meeting time parsed from a
 * schedule string, a catalog section, and the user's preferences.
 */
module Catalog {
  /** The seven day names in the order the source lists them. */
  const Days: seq<string> := ["Sunday", "Monday", "Tuesday", "Wednesday", "Thursday", "Friday", "Saturday"]

  /** One weekly meeting: a day name, 24-hour "HH:MM" start and end, and a room. */
  datatype MeetingTime = MeetingTime(day: string, startTime: string, endTime: string, room: string)

  /** A section as the catalog loader builds it; `times` may be empty. */
  datatype Section = Section(
    id: int,
    courseCode: string,
    sectionName: string,
    faculty: string,
    times: seq<MeetingTime>,
    capacity: int,
    consumedSeat: int,
    rawSchedule: string)

  /** The allowed day names and the daily window, as the form delivers them. */
  datatype Preferences = Preferences(days: seq<string>, startTime: string, endTime: string)
}

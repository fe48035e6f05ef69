/** The constants shared by the app, the companion and the settings page (ssis/common/constants.js). */
module Constants {

  // Status codes carried by every envelope.
  const StatusOk: string := "ok"
  const StatusError: string := "error"

  // Request codes, also used as response types and as cache slot names.
  const RequestLunch: string := "lunch"
  const RequestSchedule: string := "schedule"

  /** Readable (Swedish) names of the requests, shown on the loading screen. */
  const RequestToReadable: map<string, string> := map["lunch" := "lunchmeny", "schedule" := "schema"]

  const ValidRequests: seq<string> := [RequestLunch, RequestSchedule]

  /** Freshness window of the device-side cache, in seconds. */
  const CacheInterval: nat := 120

  /** Keys of the lunch API's `days` object, Monday first. */
  const LunchMenuDays: seq<string> :=
    ["monday", "tuesday", "wednesday", "thursday", "friday", "saturday", "sunday"]

  /** Swedish display names of the same days, in the same order. */
  const LunchMenuDayNames: seq<string> :=
    ["Måndag", "Tisdag", "Onsdag", "Torsdag", "Fredag", "Lördag", "Söndag"]

  /** The status codes are distinct, and exactly two requests are valid, each with a readable name. */
  lemma RequestConstants()
    ensures StatusOk == "ok" && StatusError == "error" && StatusOk != StatusError
    ensures ValidRequests == ["lunch", "schedule"] && RequestLunch != RequestSchedule
    ensures forall r :: r in ValidRequests <==> r in RequestToReadable
  {
  }

  /** Both day tables have seven entries, Monday first, Sunday last. */
  lemma DayTables()
    ensures |LunchMenuDays| == |LunchMenuDayNames| == 7
    ensures LunchMenuDays[0] == "monday" && LunchMenuDayNames[0] == "Måndag"
    ensures LunchMenuDays[6] == "sunday" && LunchMenuDayNames[6] == "Söndag"
    ensures forall i, j :: 0 <= i < j < 7 ==> LunchMenuDays[i] != LunchMenuDays[j]
  {
  }
}

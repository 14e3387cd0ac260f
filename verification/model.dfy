/** The records the viewer receives from the transit API and the row it
    derives from them for display. */
module Model {

  import opened Optional

  /** A station of the catalogue; `stationShortCode` is its key. */
  datatype Station = Station(stationShortCode: string, stationName: string, passengerTraffic: bool)

  /** A JSON number field that the API may omit (`undefined`) or send as `null`. */
  datatype JsNumber = Undefined | Null | Number(value: int)

  const ARRIVAL: string := "ARRIVAL"
  const DEPARTURE: string := "DEPARTURE"

  /** One scheduled event of a train at a station. `rowType` is the API's
      `type` text, normally ARRIVAL or DEPARTURE. `actualTime` is `None` when
      the field is absent or null. */
  datatype TimeTableRow = TimeTableRow(
    stationShortCode: string,
    rowType: string,
    scheduledTime: string,
    actualTime: Option<string>,
    differenceInMinutes: JsNumber,
    commercialStop: bool)

  /** A train with its timetable rows in route order: the first row is its
      origin, the last its destination. */
  datatype Train = Train(trainType: string, trainNumber: nat, timeTableRows: seq<TimeTableRow>)

  /** The display record built for one train at the queried station. */
  datatype ScheduleRow = ScheduleRow(
    trainName: string,
    origin: string,
    destination: string,
    scheduled: string,
    actual: string,
    diff: string)
}

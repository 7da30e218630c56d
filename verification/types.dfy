/** Shapes shared by the scraper and the store: the line types, the error
    record every lookup returns, and the two layers of outcome a scraping call
    has (a JavaScript promise either resolves with a `{result, error}` record
    or rejects with an exception). */
module Types {

  /** A line identifier as typed by a user, e.g. "35", "M12", "24N", "99B". */
  type LineId = string

  /** The five listing sections of the timetable site. */
  datatype LineType = Urban | Metropolitan | Night | Express | Supermarket

  /** `{ status, message }`, forwarded by the HTTP layer as status and body. */
  datatype HttpError = HttpError(status: int, message: string)

  datatype Option<T> = None | Some(value: T)

  /** The `{ result, error }` record: exactly one of the two is set. */
  datatype Result<T> = Ok(value: T) | Err(error: HttpError)

  /** A promise that resolved (`Returned`) or rejected with an exception
      (`Threw`): a failed navigation, a selector wait that timed out, or a
      TypeError raised inside the page script. */
  datatype Outcome<T> = Returned(result: T) | Threw(message: string)

  /** One station of a timetable with its departures in table order. A
      departure is a number of minutes after midnight of the service day;
      `None` stands for a cell whose time could not be read. */
  datatype StationDeparture = StationDeparture(station: string, departures: seq<Option<int>>)

  /** A line's schedule: one entry per station, in header order. */
  type Timetable = seq<StationDeparture>

  /** A catalogue entry: the detail-page URL of a line and its type. */
  datatype LineRecord = LineRecord(url: string, lineType: LineType, stations: Option<Timetable>)
}

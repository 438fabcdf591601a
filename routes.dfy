/**
 * `getDepartures` of src/routes/vasttrafik.js: request validation, the
 * choice of reply for the shape of the upstream board, and the departure
 * list of a board with departures.
 */
module Routes {
  import opened Wrappers
  import opened Departures
  import opened DepartureOrder

  /** The body fields of a `/departures` request. */
  datatype DeparturesRequest = DeparturesRequest(accessToken: Option<string>, id: Option<string>)

  /** The `DepartureBoard` of an upstream answer. */
  datatype Board = Board(
    departure: Option<OneOrMany<RawDeparture>>,
    serverDate: Option<string>,
    serverTime: Option<string>)

  /** An upstream `departureBoard` answer. */
  datatype BoardAnswer = BoardAnswer(departureBoard: Option<Board>)

  /** Readings of the local clock (`moment().format(...)`). */
  datatype Clock = Clock(date: string, time: string, timestamp: string)

  /** The `data` of a successful reply; the older handler sends no `timestamp`. */
  datatype Payload = Payload(
    departures: seq<Departure>,
    time: string,
    date: string,
    timestamp: Option<string>)

  /** `{ success: true, data }`, or `{ success: false, data }` where a missing
      message stands for `data: []`. */
  datatype Reply = Success(data: Payload) | Failure(message: Option<string>)

  const NoDeparturesMessage := "Inga avgångar hittades på denna hållplats."
  const GenericErrorMessage := "Något gick snett. Försök igen om en stund."

  /** JavaScript truthiness of an optional string. */
  predicate Present(s: Option<string>) {
    s.Some? && s.value != ""
  }

  /** `s || fallback`. */
  function OrElse(s: Option<string>, fallback: string): string {
    if Present(s) then s.value else fallback
  }

  /**
   * `getDepartures`. `answer` is what the upstream call returns; it is only
   * looked at once the token and the stop id are present. `minuteOf` stands for
   * moment's parsing of `${serverdate} ${servertime}` into the reference minute;
   * each of the two strings falls back to the clock's reading on its own.
   */
  method GetDepartures(req: DeparturesRequest, answer: BoardAnswer, clock: Clock,
    minuteOf: (string, string) -> int)
    returns (reply: Reply)
    ensures !Present(req.accessToken) || !Present(req.id) ==> reply == Failure(None)
    ensures Present(req.accessToken) && Present(req.id) ==>
      match answer.departureBoard
      case None => reply == Failure(Some(GenericErrorMessage))
      case Some(board) =>
        match board.departure
        case None => reply == Failure(Some(NoDeparturesMessage))
        case Some(d) =>
          if AsList(d) == [] then reply == Failure(Some(NoDeparturesMessage))
          else reply == Success(Payload(
            BuildDepartures(AsList(d),
              minuteOf(OrElse(board.serverDate, clock.date), OrElse(board.serverTime, clock.time))),
            OrElse(board.serverTime, clock.time),
            OrElse(board.serverDate, clock.date),
            Some(clock.timestamp)))
    ensures reply.Success? ==> 0 < |reply.data.departures|
  {
    if !Present(req.accessToken) || !Present(req.id) {
      return Failure(None);
    }
    if answer.departureBoard.None? {
      return Failure(Some(GenericErrorMessage));
    }
    var board := answer.departureBoard.value;
    if board.departure.None? {
      return Failure(Some(NoDeparturesMessage));
    }
    var records := AsList(board.departure.value);
    var serverdate := OrElse(board.serverDate, clock.date);
    var servertime := OrElse(board.serverTime, clock.time);
    var now := minuteOf(serverdate, servertime);
    var merged := MergeDepartures(records, now);
    var departures := Numbered(OrderByTime(merged));
    BuildDeparturesShape(records, now);
    if |departures| > 0 {
      reply := Success(Payload(departures, servertime, serverdate, Some(clock.timestamp)));
    } else {
      reply := Failure(Some(NoDeparturesMessage));
    }
  }
}

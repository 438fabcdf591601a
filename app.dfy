/**
 * The older `/departures` handler of src/app.js. It differs from
 * `Routes.GetDepartures` only in sending no `timestamp`.
 */
module AppRoutes {
  import opened Wrappers
  import opened Departures
  import opened DepartureOrder
  import opened Routes

  method PostDepartures(req: DeparturesRequest, answer: BoardAnswer, clock: Clock,
    minuteOf: (string, string) -> int)
    returns (reply: Reply)
    ensures !Present(req.accessToken) || !Present(req.id) ==> reply == Failure(None)
    ensures Present(req.accessToken) && Present(req.id) ==>
      match answer.departureBoard
      case None => reply == Failure(Some(GenericErrorMessage))
      case Some(board) =>
        match board.departure
        case None => reply == Failure(Some(NoDeparturesMessage))
        case Some(d) =>
          if AsList(d) == [] then reply == Failure(Some(NoDeparturesMessage))
          else reply == Success(Payload(
            BuildDepartures(AsList(d),
              minuteOf(OrElse(board.serverDate, clock.date), OrElse(board.serverTime, clock.time))),
            OrElse(board.serverTime, clock.time),
            OrElse(board.serverDate, clock.date),
            None))
    ensures reply.Success? ==> 0 < |reply.data.departures| && reply.data.timestamp.None?
  {
    if !Present(req.accessToken) || !Present(req.id) {
      return Failure(None);
    }
    if answer.departureBoard.None? {
      return Failure(Some(GenericErrorMessage));
    }
    var board := answer.departureBoard.value;
    if board.departure.None? {
      return Failure(Some(NoDeparturesMessage));
    }
    var records := AsList(board.departure.value);
    var serverdate := OrElse(board.serverDate, clock.date);
    var servertime := OrElse(board.serverTime, clock.time);
    var now := minuteOf(serverdate, servertime);
    var merged := MergeDepartures(records, now);
    var departures := Numbered(OrderByTime(merged));
    BuildDeparturesShape(records, now);
    if |departures| > 0 {
      reply := Success(Payload(departures, servertime, serverdate, None));
    } else {
      reply := Failure(Some(NoDeparturesMessage));
    }
  }
}

/**
 * The records the flight-search service reads from the upstream JSON payload
 * and the records it sends back, as typed values.
 */
module Records {

  /** What `getDay()` may return: 0 is Sunday, 6 is Saturday. */
  type DayNumber = d: int | 0 <= d <= 6

  /**
   * The weekday of a departure date, as the server's `new Date(text).getDay()`
   * sees it: a day number, or `InvalidDate` when the text does not parse
   * (`getDay()` then yields NaN).
   */
  datatype Day = DayOfWeek(n: DayNumber) | InvalidDate

  /** One direction of travel: `OriginId`, `DestinationId`, `DepartureDate`. */
  datatype Leg = Leg(originId: int, destinationId: int, departureDate: string, departureDay: Day)

  /** A priced itinerary: `QuoteId`, `MinPrice`, `OutboundLeg`, `InboundLeg`. */
  datatype Quote = Quote(quoteId: int, minPrice: int, outbound: Leg, inbound: Leg)

  /** A location: `PlaceId`, `Name`. */
  datatype Place = Place(placeId: int, name: string)

  /** A priced destination: `DestinationId`, `Price`, `QuoteIds` (an absent list reads as empty). */
  datatype Route = Route(destinationId: int, price: int, quoteIds: seq<int>)

  /** The upstream payload: its `Quotes`, `Routes` and `Places` arrays. */
  datatype Response = Response(quotes: seq<Quote>, routes: seq<Route>, places: seq<Place>)

  /** One entry of the `/flights` answer. */
  datatype Flight = Flight(origin: string, destination: string, price: int,
                           outboundDate: string, inboundDate: string, imgUrl: string)

  /** One entry of the `/countries` answer. */
  datatype Country = Country(destination: string, price: int, imgUrl: string)

  /**
   * The TypeErrors the ranking code can throw, each named after its cause:
   * a place id or quote id missing from its index, or a read past the end
   * of the filtered routes.
   */
  datatype Error = UnknownPlace(placeId: int) | UnknownQuote(quoteId: int) | NoRouteAt(index: nat)

  /** The fields the code keys and sorts by. */
  function PlaceKey(p: Place): int { p.placeId }
  function QuoteKey(q: Quote): int { q.quoteId }
  function MinPrice(q: Quote): int { q.minPrice }
  function RoutePrice(r: Route): int { r.price }
}

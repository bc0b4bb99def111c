/**
 * The result-shaping pipeline behind `/flights` and `/countries`: sort by
 * price, filter by availability, keep the top entries and join them to the
 * places index.
 */
module Recommend {
  import opened Wrappers
  import opened Records
  import opened Availability
  import opened Sequences
  import opened Dict

  /** How many entries an answer holds at most. */
  const MAX_RECOMMENDATIONS: nat := 3

  /** The fixed image URL every answer entry carries. */
  const IMG_URL: string := "https://www.amda.edu/media/ny.jpg"

  function Min(a: int, b: int): int { if a <= b then a else b }

  /** The `Places` array indexed by `PlaceId`. */
  function PlaceIndex(json: Response): map<int, Place> { DictBy(json.places, PlaceKey) }

  /** The `Quotes` array indexed by `QuoteId`. */
  function QuoteIndex(json: Response): map<int, Quote> { DictBy(json.quotes, QuoteKey) }

  /** `name` is the `Name` of the last place in `places` whose `PlaceId` is `id`. */
  ghost predicate NamedIn(places: seq<Place>, id: int, name: string)
  {
    exists k :: LastWith(places, PlaceKey, id, k) && places[k].name == name
  }

  /** What the places index says about `id`: its name, or that no place has that id. */
  lemma PlaceIndexLookup(json: Response, id: int)
    ensures id in PlaceIndex(json) ==> NamedIn(json.places, id, PlaceIndex(json)[id].name)
    ensures id !in PlaceIndex(json) ==> forall k :: 0 <= k < |json.places| ==> json.places[k].placeId != id
  {
    DictByLastWins(json.places, PlaceKey);
    if id in PlaceIndex(json) {
      var k :| LastWith(json.places, PlaceKey, id, k) && PlaceIndex(json)[id] == json.places[k];
    }
  }

  /** What the quotes index says about `id`: the last quote with that id, or that no quote has it. */
  lemma QuoteIndexLookup(json: Response, id: int)
    ensures id in QuoteIndex(json) ==>
      exists k :: LastWith(json.quotes, QuoteKey, id, k) && QuoteIndex(json)[id] == json.quotes[k]
    ensures id !in QuoteIndex(json) ==> forall k :: 0 <= k < |json.quotes| ==> json.quotes[k].quoteId != id
  {
    DictByLastWins(json.quotes, QuoteKey);
  }

  // ----- /flights

  /** The quotes `getFlights` walks: stably sorted by `MinPrice`, then filtered by availability. */
  function RankedQuotes(quotes: seq<Quote>, availability: Option<string>): (ranked: seq<Quote>)
    ensures |ranked| <= |quotes|
  {
    Select(SortBy(quotes, MinPrice), InAvailability(availability))
  }

  /**
   * The ranked quotes are the admissible input quotes in stable price order:
   * filtering after the sort is the same as sorting the admissible quotes.
   */
  lemma RankedQuotesAreSortedAdmissible(quotes: seq<Quote>, availability: Option<string>)
    ensures RankedQuotes(quotes, availability) == SortBy(Select(quotes, InAvailability(availability)), MinPrice)
    ensures |RankedQuotes(quotes, availability)| == |Select(quotes, InAvailability(availability))|
    ensures SortedBy(RankedQuotes(quotes, availability), MinPrice)
  {
    SelectSortBy(quotes, MinPrice, InAvailability(availability));
    SortBySorted(Select(quotes, InAvailability(availability)), MinPrice);
  }

  /**
   * Every ranked quote is an input quote within availability, so an
   * unrecognised mode ranks nothing.
   */
  lemma RankedQuotesWithinAvailability(quotes: seq<Quote>, availability: Option<string>)
    ensures forall i :: 0 <= i < |RankedQuotes(quotes, availability)| ==>
      RankedQuotes(quotes, availability)[i] in quotes
      && QuoteInAvailability(RankedQuotes(quotes, availability)[i], availability)
    ensures !KnownMode(availability) ==> RankedQuotes(quotes, availability) == []
  {
    var sorted := SortBy(quotes, MinPrice);
    var ranked := RankedQuotes(quotes, availability);
    SelectMembers(sorted, InAvailability(availability));
    SortByPermutes(quotes, MinPrice);
    forall i | 0 <= i < |ranked| ensures ranked[i] in quotes {
      assert ranked[i] in multiset(sorted);
    }
    if |ranked| > 0 {
      assert QuoteInAvailability(ranked[0], availability);
    }
  }

  /** Both place ids of the quote's outbound leg resolve in the index. */
  predicate Joinable(quote: Quote, places: map<int, Place>)
  {
    quote.outbound.originId in places && quote.outbound.destinationId in places
  }

  /** The TypeError the join throws on a quote that is not joinable; the origin is read first. */
  function JoinError(quote: Quote, places: map<int, Place>): Error
  {
    if quote.outbound.originId !in places then UnknownPlace(quote.outbound.originId)
    else UnknownPlace(quote.outbound.destinationId)
  }

  /** `flight` is the answer entry built from `quote`. */
  predicate IsFlightOf(flight: Flight, quote: Quote, places: map<int, Place>)
    requires Joinable(quote, places)
  {
    && flight.origin == places[quote.outbound.originId].name
    && flight.destination == places[quote.outbound.destinationId].name
    && flight.price == quote.minPrice
    && flight.outboundDate == quote.outbound.departureDate
    && flight.inboundDate == quote.inbound.departureDate
    && flight.imgUrl == IMG_URL
  }

  /**
   * One iteration of the `getFlights` loop: look up the outbound leg's origin
   * and destination names and build the answer entry; a missing place throws.
   */
  function JoinFlight(quote: Quote, places: map<int, Place>): (r: Result<Flight, Error>)
    ensures r.Success? <==> Joinable(quote, places)
    ensures r.Success? ==> IsFlightOf(r.value, quote, places)
    ensures r.Failure? ==> r.error == JoinError(quote, places)
  {
    var outbound, inbound := quote.outbound, quote.inbound;
    if outbound.originId !in places then Failure(UnknownPlace(outbound.originId))
    else if outbound.destinationId !in places then Failure(UnknownPlace(outbound.destinationId))
    else
      var origin := places[outbound.originId].name;
      var destination := places[outbound.destinationId].name;
      Success(Flight(origin, destination, quote.minPrice, outbound.departureDate, inbound.departureDate, IMG_URL))
  }

  /**
   * What `getFlights` answers, step by step: the first
   * `min(MAX_RECOMMENDATIONS, |ranked|)` ranked quotes joined to their place
   * names, or the TypeError of the first of them whose place ids do not resolve.
   */
  ghost predicate FlightsOutcome(json: Response, availability: Option<string>, r: Result<seq<Flight>, Error>)
  {
    var ranked, places := RankedQuotes(json.quotes, availability), PlaceIndex(json);
    var n := Min(MAX_RECOMMENDATIONS, |ranked|);
    match r
    case Success(flights) =>
      && |flights| == n
      && forall i :: 0 <= i < n ==> JoinFlight(ranked[i], places) == Success(flights[i])
    case Failure(e) =>
      exists i ::
        && 0 <= i < n
        && (forall j :: 0 <= j < i ==> JoinFlight(ranked[j], places).Success?)
        && JoinFlight(ranked[i], places) == Failure(e)
  }

  /**
   * The `getFlights` answer holds min(3, number of admissible quotes) entries
   * in non-decreasing price order, each naming the places of its outbound leg;
   * it fails exactly when one of those quotes names a place id that no place
   * has; an unrecognised availability mode gives an empty answer.
   */
  lemma FlightsOutcomeMeaning(json: Response, availability: Option<string>, r: Result<seq<Flight>, Error>)
    requires FlightsOutcome(json, availability, r)
    ensures var ranked, places := RankedQuotes(json.quotes, availability), PlaceIndex(json);
      r.Success? <==> forall i :: 0 <= i < Min(MAX_RECOMMENDATIONS, |ranked|) ==> Joinable(ranked[i], places)
    ensures r.Success? ==> |r.value| == Min(MAX_RECOMMENDATIONS, |Select(json.quotes, InAvailability(availability))|)
    ensures r.Success? ==> forall i, j :: 0 <= i < j < |r.value| ==> r.value[i].price <= r.value[j].price
    ensures var ranked := RankedQuotes(json.quotes, availability);
      r.Success? ==> forall i :: 0 <= i < |r.value| ==>
        NamedIn(json.places, ranked[i].outbound.originId, r.value[i].origin)
        && NamedIn(json.places, ranked[i].outbound.destinationId, r.value[i].destination)
    ensures r.Failure? ==>
      && r.error.UnknownPlace?
      && forall k :: 0 <= k < |json.places| ==> json.places[k].placeId != r.error.placeId
    ensures !KnownMode(availability) ==> r == Success([])
  {
    var ranked, places := RankedQuotes(json.quotes, availability), PlaceIndex(json);
    RankedQuotesAreSortedAdmissible(json.quotes, availability);
    RankedQuotesWithinAvailability(json.quotes, availability);
    if r.Success? {
      forall i | 0 <= i < |r.value|
        ensures NamedIn(json.places, ranked[i].outbound.originId, r.value[i].origin)
        ensures NamedIn(json.places, ranked[i].outbound.destinationId, r.value[i].destination)
      {
        assert JoinFlight(ranked[i], places) == Success(r.value[i]);
        PlaceIndexLookup(json, ranked[i].outbound.originId);
        PlaceIndexLookup(json, ranked[i].outbound.destinationId);
      }
    } else {
      var i :| 0 <= i < Min(MAX_RECOMMENDATIONS, |ranked|) && JoinFlight(ranked[i], places) == Failure(r.error);
      PlaceIndexLookup(json, r.error.placeId);
    }
  }

  /**
   * `getFlights(json, availability)`: the cheapest admissible quotes, at most
   * `MAX_RECOMMENDATIONS` of them, joined to their place names. A place id
   * missing from the index throws.
   */
  method GetFlights(json: Response, availability: Option<string>) returns (r: Result<seq<Flight>, Error>)
    ensures FlightsOutcome(json, availability, r)
    ensures r.Success? ==> |r.value| == Min(MAX_RECOMMENDATIONS, |Select(json.quotes, InAvailability(availability))|)
    ensures r.Success? ==> forall i, j :: 0 <= i < j < |r.value| ==> r.value[i].price <= r.value[j].price
    ensures r.Failure? ==> r.error.UnknownPlace?
    ensures !KnownMode(availability) ==> r == Success([])
  {
    var places := CreateDictBy(json.places, PlaceKey);
    var quotes := SortBy(json.quotes, MinPrice);
    quotes := Select(quotes, InAvailability(availability));
    var flights: seq<Flight> := [];
    var i := 0;
    while i < MAX_RECOMMENDATIONS && i < |quotes|
      invariant 0 <= i <= Min(MAX_RECOMMENDATIONS, |quotes|)
      invariant |flights| == i
      invariant forall j :: 0 <= j < i ==> JoinFlight(quotes[j], places) == Success(flights[j])
    {
      var flight := JoinFlight(quotes[i], places);
      if flight.Failure? {
        r := Failure(flight.error);
        assert JoinFlight(quotes[i], places) == Failure(r.error);
        assert forall j :: 0 <= j < i ==> JoinFlight(quotes[j], places).Success?;
        assert FlightsOutcome(json, availability, r);
        FlightsOutcomeMeaning(json, availability, r);
        return;
      }
      flights := flights + [flight.value];
      i := i + 1;
    }
    r := Success(flights);
    assert FlightsOutcome(json, availability, r);
    FlightsOutcomeMeaning(json, availability, r);
  }

  // ----- /countries

  /**
   * The filter callback on one route's `QuoteIds`: `true` at the first quote
   * within availability, `false` when none is; a quote id missing from the
   * index throws when the walk reaches it.
   */
  function AdmitsRoute(ids: seq<int>, quotes: map<int, Quote>, availability: Option<string>): Result<bool, Error>
  {
    if ids == [] then Success(false)
    else if ids[0] !in quotes then Failure(UnknownQuote(ids[0]))
    else if QuoteInAvailability(quotes[ids[0]], availability) then Success(true)
    else AdmitsRoute(ids[1..], quotes, availability)
  }

  /** The callback's walk got past the first `i` ids: each resolved to a quote outside availability. */
  predicate PassedOver(ids: seq<int>, quotes: map<int, Quote>, availability: Option<string>, i: int)
  {
    && 0 <= i <= |ids|
    && forall j :: 0 <= j < i ==> ids[j] in quotes && !QuoteInAvailability(quotes[ids[j]], availability)
  }

  /**
   * Once the walk has got past the first `i` ids, the next id decides: it
   * throws on an unresolved id, returns `true` on an admissible quote, and
   * returns `false` when no id is left.
   */
  lemma {:induction false} AdmitsRouteAt(ids: seq<int>, quotes: map<int, Quote>, availability: Option<string>, i: int)
    requires PassedOver(ids, quotes, availability, i)
    ensures i == |ids| ==> AdmitsRoute(ids, quotes, availability) == Success(false)
    ensures i < |ids| && ids[i] !in quotes ==> AdmitsRoute(ids, quotes, availability) == Failure(UnknownQuote(ids[i]))
    ensures i < |ids| && ids[i] in quotes && QuoteInAvailability(quotes[ids[i]], availability) ==>
      AdmitsRoute(ids, quotes, availability) == Success(true)
  {
    if i > 0 {
      var rest := ids[1..];
      forall j | 0 <= j < i - 1
        ensures rest[j] in quotes && !QuoteInAvailability(quotes[rest[j]], availability)
      {
        assert rest[j] == ids[j + 1];
      }
      AdmitsRouteAt(rest, quotes, availability, i - 1);
      assert i < |ids| ==> rest[i - 1] == ids[i];
    }
  }

  /**
   * A route passes only when the walk reaches a quote id that resolves to a
   * quote within availability; a route without quote ids never passes; the
   * walk throws on an unresolved id only when no earlier id passed.
   */
  lemma {:induction false} AdmitsRouteMeaning(ids: seq<int>, quotes: map<int, Quote>, availability: Option<string>)
    ensures ids == [] ==> AdmitsRoute(ids, quotes, availability) == Success(false)
    ensures AdmitsRoute(ids, quotes, availability) == Success(true) ==> exists i ::
      && 0 <= i < |ids|
      && PassedOver(ids, quotes, availability, i)
      && ids[i] in quotes && QuoteInAvailability(quotes[ids[i]], availability)
    ensures AdmitsRoute(ids, quotes, availability) == Success(false) ==>
      forall i :: 0 <= i < |ids| ==> ids[i] in quotes && !QuoteInAvailability(quotes[ids[i]], availability)
    ensures (forall i :: 0 <= i < |ids| ==> ids[i] in quotes) ==> AdmitsRoute(ids, quotes, availability).Success?
    ensures AdmitsRoute(ids, quotes, availability).Failure? ==> exists i ::
      && 0 <= i < |ids|
      && (forall j :: 0 <= j < i ==> ids[j] in quotes && !QuoteInAvailability(quotes[ids[j]], availability))
      && ids[i] !in quotes
      && AdmitsRoute(ids, quotes, availability).error == UnknownQuote(ids[i])
  {
    if ids != [] && ids[0] in quotes && !QuoteInAvailability(quotes[ids[0]], availability) {
      var rest := ids[1..];
      AdmitsRouteMeaning(rest, quotes, availability);
      if AdmitsRoute(rest, quotes, availability) == Success(true) {
        var i :| 0 <= i < |rest| && PassedOver(rest, quotes, availability, i)
          && rest[i] in quotes && QuoteInAvailability(quotes[rest[i]], availability);
        assert ids[i + 1] == rest[i];
        forall j | 0 <= j < i + 1 ensures ids[j] in quotes && !QuoteInAvailability(quotes[ids[j]], availability) {
          if j > 0 { assert ids[j] == rest[j - 1]; }
        }
      }
      if AdmitsRoute(rest, quotes, availability).Failure? {
        var i :| 0 <= i < |rest|
          && (forall j :: 0 <= j < i ==> rest[j] in quotes && !QuoteInAvailability(quotes[rest[j]], availability))
          && rest[i] !in quotes
          && AdmitsRoute(rest, quotes, availability).error == UnknownQuote(rest[i]);
        assert ids[i + 1] == rest[i];
        forall j | 0 <= j < i + 1 ensures ids[j] in quotes && !QuoteInAvailability(quotes[ids[j]], availability) {
          if j > 0 { assert ids[j] == rest[j - 1]; }
        }
      }
      if (forall i :: 0 <= i < |ids| ==> ids[i] in quotes) {
        forall i | 0 <= i < |rest| ensures rest[i] in quotes { assert rest[i] == ids[i + 1]; }
      }
      if AdmitsRoute(rest, quotes, availability) == Success(false) {
        forall i | 0 <= i < |ids| ensures ids[i] in quotes && !QuoteInAvailability(quotes[ids[i]], availability) {
          if i > 0 { assert ids[i] == rest[i - 1]; }
        }
      }
    }
  }

  /**
   * The filter callback of `getCountries` as the source writes it: map the
   * quote ids through the index, then return at the first admissible quote.
   */
  method RouteAdmissible(route: Route, quotes: map<int, Quote>, availability: Option<string>) returns (r: Result<bool, Error>)
    ensures r == AdmitsRoute(route.quoteIds, quotes, availability)
  {
    var ids := route.quoteIds;
    var routeQuotes := seq(|ids|, i requires 0 <= i < |ids| => Lookup(quotes, ids[i]));
    for i := 0 to |routeQuotes|
      invariant AdmitsRoute(ids[i..], quotes, availability) == AdmitsRoute(ids, quotes, availability)
    {
      assert ids[i..][0] == ids[i] && ids[i..][1..] == ids[i + 1..];
      var quote := routeQuotes[i];
      if quote.None? {
        return Failure(UnknownQuote(ids[i]));
      }
      if QuoteInAvailability(quote.value, availability) {
        return Success(true);
      }
    }
    return Success(false);
  }

  /** `_.filter(routes, callback)`: the routes the callback accepts; the first throw ends the walk. */
  function FilterRoutes(routes: seq<Route>, quotes: map<int, Quote>, availability: Option<string>): Result<seq<Route>, Error>
  {
    if routes == [] then Success([])
    else match AdmitsRoute(routes[0].quoteIds, quotes, availability)
      case Failure(e) => Failure(e)
      case Success(keep) =>
        match FilterRoutes(routes[1..], quotes, availability)
        case Failure(e) => Failure(e)
        case Success(rest) => Success(if keep then [routes[0]] + rest else rest)
  }

  /** The callback as a predicate: the route passes without throwing. */
  function RoutePasses(quotes: map<int, Quote>, availability: Option<string>): Route -> bool
  {
    (route: Route) => AdmitsRoute(route.quoteIds, quotes, availability) == Success(true)
  }

  /** The filter succeeds exactly when the callback succeeds on every route. */
  lemma {:induction false} FilterRoutesSucceeds(routes: seq<Route>, quotes: map<int, Quote>, availability: Option<string>)
    ensures FilterRoutes(routes, quotes, availability).Success? <==>
      forall i :: 0 <= i < |routes| ==> AdmitsRoute(routes[i].quoteIds, quotes, availability).Success?
  {
    if routes != [] {
      var rest := routes[1..];
      FilterRoutesSucceeds(rest, quotes, availability);
      forall i | 1 <= i < |routes| ensures routes[i] == rest[i - 1] { }
    }
  }

  /** A successful filter keeps exactly the passing routes, in order. */
  lemma {:induction false} FilterRoutesKeeps(routes: seq<Route>, quotes: map<int, Quote>, availability: Option<string>)
    requires FilterRoutes(routes, quotes, availability).Success?
    ensures FilterRoutes(routes, quotes, availability).value == Select(routes, RoutePasses(quotes, availability))
  {
    if routes != [] {
      var rest := routes[1..];
      FilterRoutesKeeps(rest, quotes, availability);
      SelectSingle(routes[0], RoutePasses(quotes, availability));
      SelectAppend([routes[0]], rest, RoutePasses(quotes, availability));
      assert routes == [routes[0]] + rest;
    }
  }

  /** A failing filter fails with the error of the first route whose callback throws. */
  lemma {:induction false} FilterRoutesFirstError(routes: seq<Route>, quotes: map<int, Quote>, availability: Option<string>)
    requires FilterRoutes(routes, quotes, availability).Failure?
    ensures exists i ::
      && 0 <= i < |routes|
      && (forall j :: 0 <= j < i ==> AdmitsRoute(routes[j].quoteIds, quotes, availability).Success?)
      && AdmitsRoute(routes[i].quoteIds, quotes, availability) == Failure(FilterRoutes(routes, quotes, availability).error)
  {
    var rest := routes[1..];
    if AdmitsRoute(routes[0].quoteIds, quotes, availability).Success? {
      FilterRoutesFirstError(rest, quotes, availability);
      var i :| 0 <= i < |rest|
        && (forall j :: 0 <= j < i ==> AdmitsRoute(rest[j].quoteIds, quotes, availability).Success?)
        && AdmitsRoute(rest[i].quoteIds, quotes, availability) == Failure(FilterRoutes(rest, quotes, availability).error);
      assert routes[i + 1] == rest[i];
      forall j | 1 <= j < i + 1 ensures routes[j] == rest[j - 1] { }
    }
  }

  /**
   * The filter succeeds exactly when the callback succeeds on every route,
   * and then keeps the passing routes in order; otherwise it fails with the
   * first route's error.
   */
  lemma FilterRoutesMeaning(routes: seq<Route>, quotes: map<int, Quote>, availability: Option<string>)
    ensures FilterRoutes(routes, quotes, availability).Success? <==>
      forall i :: 0 <= i < |routes| ==> AdmitsRoute(routes[i].quoteIds, quotes, availability).Success?
    ensures FilterRoutes(routes, quotes, availability).Success? ==>
      FilterRoutes(routes, quotes, availability).value == Select(routes, RoutePasses(quotes, availability))
    ensures FilterRoutes(routes, quotes, availability).Failure? ==> exists i ::
      && 0 <= i < |routes|
      && (forall j :: 0 <= j < i ==> AdmitsRoute(routes[j].quoteIds, quotes, availability).Success?)
      && AdmitsRoute(routes[i].quoteIds, quotes, availability) == Failure(FilterRoutes(routes, quotes, availability).error)
  {
    FilterRoutesSucceeds(routes, quotes, availability);
    if FilterRoutes(routes, quotes, availability).Success? {
      FilterRoutesKeeps(routes, quotes, availability);
    } else {
      FilterRoutesFirstError(routes, quotes, availability);
    }
  }

  /** The routes `getCountries` walks: stably sorted by `Price`, then filtered by the callback. */
  function RankedRoutes(json: Response, availability: Option<string>): Result<seq<Route>, Error>
  {
    FilterRoutes(SortBy(json.routes, RoutePrice), QuoteIndex(json), availability)
  }

  /** A route the callback accepts has a quote id resolving to a quote within availability. */
  lemma PassingRouteAdmissible(route: Route, quotes: map<int, Quote>, availability: Option<string>)
    requires RoutePasses(quotes, availability)(route)
    ensures exists j ::
      0 <= j < |route.quoteIds| && route.quoteIds[j] in quotes
      && QuoteInAvailability(quotes[route.quoteIds[j]], availability)
  {
    AdmitsRouteMeaning(route.quoteIds, quotes, availability);
  }

  /**
   * When the filter succeeds, the ranked routes are the passing input routes
   * in stable price order.
   */
  lemma RankedRoutesAreSortedPassing(json: Response, availability: Option<string>)
    requires RankedRoutes(json, availability).Success?
    ensures RankedRoutes(json, availability).value
      == SortBy(Select(json.routes, RoutePasses(QuoteIndex(json), availability)), RoutePrice)
    ensures SortedBy(RankedRoutes(json, availability).value, RoutePrice)
  {
    var p := RoutePasses(QuoteIndex(json), availability);
    FilterRoutesMeaning(SortBy(json.routes, RoutePrice), QuoteIndex(json), availability);
    SelectSortBy(json.routes, RoutePrice, p);
    SortBySorted(Select(json.routes, p), RoutePrice);
  }

  /**
   * Every ranked route is an input route holding a quote id that resolves to
   * a quote within availability, so an unrecognised mode ranks no route.
   */
  lemma RankedRoutesWithinAvailability(json: Response, availability: Option<string>)
    requires RankedRoutes(json, availability).Success?
    ensures var ranked, quotes := RankedRoutes(json, availability).value, QuoteIndex(json);
      forall i :: 0 <= i < |ranked| ==>
        && ranked[i] in json.routes
        && exists j ::
          0 <= j < |ranked[i].quoteIds| && ranked[i].quoteIds[j] in quotes
          && QuoteInAvailability(quotes[ranked[i].quoteIds[j]], availability)
    ensures !KnownMode(availability) ==> RankedRoutes(json, availability).value == []
  {
    var quotes := QuoteIndex(json);
    var p := RoutePasses(quotes, availability);
    var sorted := SortBy(json.routes, RoutePrice);
    var ranked := RankedRoutes(json, availability).value;
    FilterRoutesMeaning(sorted, quotes, availability);
    assert ranked == Select(sorted, p);
    SelectMembers(sorted, p);
    SortByPermutes(json.routes, RoutePrice);
    forall i | 0 <= i < |ranked|
      ensures ranked[i] in json.routes
      ensures exists j ::
        0 <= j < |ranked[i].quoteIds| && ranked[i].quoteIds[j] in quotes
        && QuoteInAvailability(quotes[ranked[i].quoteIds[j]], availability)
    {
      assert ranked[i] in multiset(sorted);
      PassingRouteAdmissible(ranked[i], quotes, availability);
    }
    if |ranked| > 0 {
      var j :| 0 <= j < |ranked[0].quoteIds| && ranked[0].quoteIds[j] in quotes
        && QuoteInAvailability(quotes[ranked[0].quoteIds[j]], availability);
    }
  }

  /** `country` is the answer entry built from `route`. */
  predicate IsCountryOf(country: Country, route: Route, places: map<int, Place>)
    requires route.destinationId in places
  {
    && country.destination == places[route.destinationId].name
    && country.price == route.price
    && country.imgUrl == IMG_URL
  }

  /**
   * One iteration of the `getCountries` loop: read `routes[i]` with no bounds
   * check, then look up its destination's name; reading past the end or a
   * missing place throws.
   */
  function JoinCountry(routes: seq<Route>, i: nat, places: map<int, Place>): (r: Result<Country, Error>)
    ensures r.Success? <==> i < |routes| && routes[i].destinationId in places
    ensures r.Success? ==> IsCountryOf(r.value, routes[i], places)
    ensures i >= |routes| ==> r == Failure(NoRouteAt(i))
    ensures i < |routes| && routes[i].destinationId !in places ==> r == Failure(UnknownPlace(routes[i].destinationId))
  {
    if i >= |routes| then Failure(NoRouteAt(i))
    else
      var route := routes[i];
      if route.destinationId !in places then Failure(UnknownPlace(route.destinationId))
      else Success(Country(places[route.destinationId].name, route.price, IMG_URL))
  }

  /**
   * What `getCountries` answers, step by step: the filter's error, or the
   * entries built from indices 0 to `MAX_RECOMMENDATIONS - 1` of the ranked
   * routes, or the error of the first of those reads that throws.
   */
  ghost predicate CountriesOutcome(json: Response, availability: Option<string>, r: Result<seq<Country>, Error>)
  {
    var places := PlaceIndex(json);
    match RankedRoutes(json, availability)
    case Failure(e) => r == Failure(e)
    case Success(ranked) =>
      match r
      case Success(countries) =>
        && |countries| == MAX_RECOMMENDATIONS <= |ranked|
        && forall i :: 0 <= i < MAX_RECOMMENDATIONS ==>
          ranked[i].destinationId in places && IsCountryOf(countries[i], ranked[i], places)
      case Failure(e) =>
        exists i ::
          && 0 <= i < MAX_RECOMMENDATIONS
          && (forall j :: 0 <= j < i ==> JoinCountry(ranked, j, places).Success?)
          && JoinCountry(ranked, i, places) == Failure(e)
  }

  /**
   * The `getCountries` answer: with at least three ranked routes whose
   * destinations resolve, exactly three entries in non-decreasing price
   * order, each naming its route's destination; with fewer than three ranked
   * routes a failure, so an unrecognised availability mode always fails.
   */
  lemma CountriesOutcomeMeaning(json: Response, availability: Option<string>, r: Result<seq<Country>, Error>)
    requires CountriesOutcome(json, availability, r)
    ensures var ranked, places := RankedRoutes(json, availability), PlaceIndex(json);
      r.Success? <==>
        && ranked.Success?
        && |ranked.value| >= MAX_RECOMMENDATIONS
        && forall i :: 0 <= i < MAX_RECOMMENDATIONS ==> ranked.value[i].destinationId in places
    ensures var ranked := RankedRoutes(json, availability);
      ranked.Success? && |ranked.value| < MAX_RECOMMENDATIONS ==> r.Failure?
    ensures r.Success? ==> |r.value| == MAX_RECOMMENDATIONS
    ensures r.Success? ==> forall i, j :: 0 <= i < j < |r.value| ==> r.value[i].price <= r.value[j].price
    ensures var ranked := RankedRoutes(json, availability);
      r.Success? ==> forall i :: 0 <= i < |r.value| ==>
        NamedIn(json.places, ranked.value[i].destinationId, r.value[i].destination)
    ensures !KnownMode(availability) ==> r.Failure?
  {
    var places := PlaceIndex(json);
    if RankedRoutes(json, availability).Success? {
      var ranked := RankedRoutes(json, availability).value;
      RankedRoutesAreSortedPassing(json, availability);
      RankedRoutesWithinAvailability(json, availability);
      if r.Success? {
        forall i | 0 <= i < |r.value|
          ensures NamedIn(json.places, ranked[i].destinationId, r.value[i].destination)
        {
          PlaceIndexLookup(json, ranked[i].destinationId);
        }
      } else {
        var i :| 0 <= i < MAX_RECOMMENDATIONS && JoinCountry(ranked, i, places) == Failure(r.error);
      }
    }
  }

  /**
   * `getCountries(json, availability)`: the three cheapest routes that pass the
   * filter, joined to their destination names. It reads indices 0, 1 and 2 of
   * the filtered routes without a bounds check, so with fewer than three it
   * throws.
   */
  method GetCountries(json: Response, availability: Option<string>) returns (r: Result<seq<Country>, Error>)
    ensures CountriesOutcome(json, availability, r)
    ensures var ranked := RankedRoutes(json, availability);
      ranked.Success? && |ranked.value| < MAX_RECOMMENDATIONS ==> r.Failure?
    ensures r.Success? ==> |r.value| == MAX_RECOMMENDATIONS
    ensures r.Success? ==> forall i, j :: 0 <= i < j < |r.value| ==> r.value[i].price <= r.value[j].price
    ensures !KnownMode(availability) ==> r.Failure?
  {
    var routes := json.routes;
    var quotes := CreateDictBy(json.quotes, QuoteKey);
    var places := CreateDictBy(json.places, PlaceKey);
    var countries: seq<Country> := [];
    routes := SortBy(routes, RoutePrice);
    var filtered := FilterRoutes(routes, quotes, availability);
    if filtered.Failure? {
      r := Failure(filtered.error);
      CountriesOutcomeMeaning(json, availability, r);
      return;
    }
    assert filtered == RankedRoutes(json, availability);
    routes := filtered.value;
    for i := 0 to MAX_RECOMMENDATIONS
      invariant |countries| == i <= |routes|
      invariant forall j :: 0 <= j < i ==> JoinCountry(routes, j, places) == Success(countries[j])
    {
      var country := JoinCountry(routes, i, places);
      if country.Failure? {
        r := Failure(country.error);
        assert JoinCountry(routes, i, places) == Failure(r.error);
        assert forall j :: 0 <= j < i ==> JoinCountry(routes, j, places).Success?;
        assert places == PlaceIndex(json) && routes == RankedRoutes(json, availability).value;
        assert CountriesOutcome(json, availability, r);
        CountriesOutcomeMeaning(json, availability, r);
        return;
      }
      countries := countries + [country.value];
    }
    r := Success(countries);
    forall i | 0 <= i < MAX_RECOMMENDATIONS
      ensures routes[i].destinationId in places && IsCountryOf(countries[i], routes[i], places)
    {
      assert JoinCountry(routes, i, places) == Success(countries[i]);
    }
    assert CountriesOutcome(json, availability, r);
    CountriesOutcomeMeaning(json, availability, r);
  }
}

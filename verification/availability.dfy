/** The day-of-week availability filter applied to quotes. */
module Availability {
  import opened Wrappers
  import opened Records

  /** The three modes the filter recognises; `None` is an absent query parameter. */
  predicate KnownMode(availability: Option<string>)
  {
    availability == Some("Anytime") || availability == Some("Weekend") || availability == Some("Weekdays")
  }

  /** Sunday (0) or Saturday (6); an unparsable date is neither. */
  function IsWeekend(date: Day): (weekend: bool)
    ensures date.InvalidDate? ==> !weekend
  {
    date == DayOfWeek(0) || date == DayOfWeek(6)
  }

  /** Whether a departure on `date` is admissible under `availability`. */
  function CheckAvailability(availability: Option<string>, date: Day): (ok: bool)
    ensures availability == Some("Anytime") ==> ok
    ensures availability == Some("Weekend") ==> (ok <==> date.DayOfWeek? && (date.n == 0 || date.n == 6))
    ensures availability == Some("Weekdays") && date.DayOfWeek? ==> (ok <==> 1 <= date.n <= 5)
    ensures availability == Some("Weekdays") && date.InvalidDate? ==> ok
    ensures !KnownMode(availability) ==> !ok
  {
    availability == Some("Anytime")
    || (availability == Some("Weekend") && IsWeekend(date))
    || (availability == Some("Weekdays") && !IsWeekend(date))
  }

  /** Whether both legs of `quote` depart on admissible days. */
  function QuoteInAvailability(quote: Quote, availability: Option<string>): (ok: bool)
    ensures ok ==> KnownMode(availability)
    ensures availability == Some("Anytime") ==> ok
    ensures availability == Some("Weekend") ==>
      (ok <==> IsWeekend(quote.outbound.departureDay) && IsWeekend(quote.inbound.departureDay))
    ensures availability == Some("Weekdays") ==>
      (ok <==> !IsWeekend(quote.outbound.departureDay) && !IsWeekend(quote.inbound.departureDay))
  {
    CheckAvailability(availability, quote.outbound.departureDay)
    && CheckAvailability(availability, quote.inbound.departureDay)
  }

  /** The filter callback `quote => quoteInAvailability(quote, availability)`. */
  function InAvailability(availability: Option<string>): Quote -> bool
  {
    quote => QuoteInAvailability(quote, availability)
  }

  /** On a parsed date, "Weekend" and "Weekdays" split the week exactly in two. */
  lemma WeekendWeekdaysPartition(date: Day)
    requires date.DayOfWeek?
    ensures CheckAvailability(Some("Weekend"), date) != CheckAvailability(Some("Weekdays"), date)
  {
  }
}

/**
 * When a slot may be offered. The admin listing and the booking re-check compare the slot's
 * calendar day with today's and, for a slot today, allow it to have started a little while
 * ago: 30 minutes for the listing, 15 for booking. The model layer instead offers only slots
 * that start strictly after now. Times are whole minutes; a day is 1440 of them.
 */
module Availability {
  import opened Wrappers
  import opened Tables

  const MinutesPerDay: int := 1440

  /** The calendar day of `t` (`CAST(… AS DATE)`); Dafny's division floors for a positive divisor. */
  function Day(t: Time): int {
    t / MinutesPerDay
  }

  /** A later day, or today and started no more than `grace` minutes before `now`. */
  predicate OfferableWithin(t: Time, now: Time, grace: nat) {
    Day(t) > Day(now) || (Day(t) == Day(now) && t >= now - grace)
  }

  const ListingGrace: nat := 30
  const BookingGrace: nat := 15

  /** The availability listing's rule. */
  predicate Listed(s: Slot, now: Time) {
    !s.isBooked && OfferableWithin(s.time, now, ListingGrace)
  }

  /** The booking re-check's rule. */
  predicate Bookable(s: Slot, now: Time) {
    !s.isBooked && OfferableWithin(s.time, now, BookingGrace)
  }

  /** The model layer's rule: free and strictly in the future. */
  predicate Upcoming(s: Slot, now: Time) {
    !s.isBooked && s.time > now
  }

  /** A wider grace never offers fewer slots. */
  lemma GraceMonotone(t: Time, now: Time, g1: nat, g2: nat)
    requires g1 <= g2 && OfferableWithin(t, now, g1)
    ensures OfferableWithin(t, now, g2)
  {
  }

  /** Every slot that can be booked is also listed. */
  lemma BookableIsListed(s: Slot, now: Time)
    requires Bookable(s, now)
    ensures Listed(s, now)
  {
    GraceMonotone(s.time, now, BookingGrace, ListingGrace);
  }

  /** A slot that starts after now is listed and bookable. */
  lemma UpcomingIsBookable(s: Slot, now: Time)
    requires Upcoming(s, now)
    ensures Bookable(s, now) && Listed(s, now)
  {
    assert Day(s.time) >= Day(now) by { DayMonotone(now, s.time); }
  }

  /** Later times fall on the same or a later day. */
  lemma DayMonotone(a: Time, b: Time)
    requires a <= b
    ensures Day(a) <= Day(b)
  {
  }

  /** A slot on an earlier day than today is never offered, whatever the grace. */
  lemma EarlierDayNeverOffered(t: Time, now: Time, grace: nat)
    requires Day(t) < Day(now)
    ensures !OfferableWithin(t, now, grace)
  {
  }

  /** On today's date a slot is offered exactly when it started at most `grace` minutes ago. */
  lemma SameDayRule(t: Time, now: Time, grace: nat)
    requires Day(t) == Day(now)
    ensures OfferableWithin(t, now, grace) <==> now - t <= grace
  {
  }

  /** A slot on a later day is offered however far ahead it lies. */
  lemma LaterDayAlwaysOffered(t: Time, now: Time, grace: nat)
    requires Day(t) > Day(now)
    ensures OfferableWithin(t, now, grace)
  {
  }

  /**
   * The two graces differ: a free slot that started 20 minutes ago today is listed
   * but can no longer be booked.
   */
  lemma ListedButNotBookable()
    ensures var s := Slot(1440 * 3 + 600, None, None, false, None);
            Listed(s, 1440 * 3 + 620) && !Bookable(s, 1440 * 3 + 620) && !Upcoming(s, 1440 * 3 + 620)
  {
  }

  /** The grace never reaches back across midnight: a slot from late yesterday is gone at 00:05. */
  lemma GraceStopsAtMidnight()
    ensures !Listed(Slot(1440 * 3 - 10, None, None, false, None), 1440 * 3 + 5)
  {
  }
}

/**
 * The reservation page's state and its handlers: the fetched reservations
 * grouped by date, the date picked on the calendar, the slot labels offered
 * for it, the slot chosen and the name and e-mail fields. React's state
 * setters become assignments to the fields of one `ReservePage` object.
 */
module Reserve {
  import opened Wrappers
  import opened Slots
  import opened Availability
  import opened Grouping
  import opened DateKey

  /** The calendar's `Value`: no date, one `Date`, or a pair of optional dates. */
  datatype CalendarValue =
    | NoDate
    | SingleDate(time: TimeValue)
    | DateRange(from: Option<TimeValue>, to: Option<TimeValue>)

  /** The answer to the reservations query: rows, or an error. */
  datatype FetchResponse = Fetched(data: seq<Row>) | FetchError(message: string)

  /** What a calendar tile shows: the fully-booked marker, or the free labels. */
  datatype Tile = SoldOut | Open(labels: seq<string>)

  /**
   * `reservations[dateString] || []`. The dictionary's keys are fetched
   * `reservation_date` texts. Outside years 0000-9999 the key text has
   * `toISOString`'s signed six-digit year ("+010000-01-01"), a form no
   * database date text takes, so such a day is never found.
   */
  function ReservedOn(reservations: map<int, seq<Interval>>, d: int): (reserved: seq<Interval>)
    ensures reserved != [] ==> FourDigitYear(d) && d in reservations && reserved == reservations[d]
  {
    if FourDigitYear(d) && d in reservations then reservations[d] else []
  }

  /**
   * The labels offered after clicking the date at instant `t`; `None` when
   * computing the key throws.
   */
  function SlotsFor(reservations: map<int, seq<Interval>>, t: TimeValue): (offered: Option<seq<string>>)
    ensures offered.None? <==> JstDay(t).None?
    ensures offered.Some? ==> Sublist(offered.value, Labels(AllSlots)) && Distinct(offered.value)
  {
    match JstDay(t)
    case None => None
    case Some(d) =>
      AvailableLabelsSpec(ReservedOn(reservations, d));
      Some(AvailableLabels(ReservedOn(reservations, d)))
  }

  /** `tileContent` for the tile of instant `t`; `None` when computing the key throws. */
  function TileContent(reservations: map<int, seq<Interval>>, t: TimeValue): (tile: Option<Tile>)
    ensures tile.None? <==> JstDay(t).None?
    ensures tile.Some? && tile.value.Open? ==>
      tile.value.labels != [] && Sublist(tile.value.labels, Labels(AllSlots))
  {
    match JstDay(t)
    case None => None
    case Some(d) =>
      AvailableLabelsSpec(ReservedOn(reservations, d));
      var available := Available(AllSlots, ReservedOn(reservations, d));
      Some(if |available| == 0 then SoldOut else Open(Labels(available)))
  }

  class ReservePage {
    var date: CalendarValue
    var availableSlots: seq<string>
    var selectedSlot: Option<string>
    var name: string
    var email: string
    var reservations: map<int, seq<Interval>>

    /**
     * What the page keeps true: the offered labels are catalog labels in
     * catalog order without repeats, a chosen slot is one of them, and no
     * date maps to an empty list.
     */
    ghost predicate Valid()
      reads this
    {
      Sublist(availableSlots, Labels(AllSlots)) && Distinct(availableSlots) &&
      (selectedSlot.Some? ==> selectedSlot.value in availableSlots) &&
      forall d :: d in reservations ==> reservations[d] != []
    }

    /** The initial state of every `useState`. */
    constructor ()
      ensures Valid()
      ensures date == NoDate && availableSlots == [] && selectedSlot == None
      ensures name == "" && email == "" && reservations == map[]
    {
      date := NoDate;
      availableSlots := [];
      selectedSlot := None;
      name := "";
      email := "";
      reservations := map[];
    }

    /**
     * `fetchReservations`: on an error the dictionary is left as it was;
     * otherwise it is replaced by the fetched rows grouped by date.
     */
    method FetchReservations(response: FetchResponse)
      requires Valid()
      modifies this`reservations
      ensures Valid()
      ensures response.FetchError? ==> reservations == old(reservations)
      ensures response.Fetched? ==> reservations == Grouped(response.data)
    {
      if response.FetchError? {
        return;
      }
      var mapped := MapReservations(response.data);
      reservations := mapped;
    }

    /**
     * `handleDateSelect`: records the value and clears the slot, name and
     * e-mail; for a single date whose key can be computed it offers the
     * slots left free on that date, and otherwise keeps the labels it had.
     */
    method HandleDateSelect(value: CalendarValue)
      requires Valid()
      modifies this`date, this`selectedSlot, this`name, this`email, this`availableSlots
      ensures Valid()
      ensures date == value && selectedSlot == None && name == "" && email == ""
      ensures value.SingleDate? && SlotsFor(reservations, value.time).Some? ==>
        availableSlots == SlotsFor(reservations, value.time).value
      ensures !(value.SingleDate? && SlotsFor(reservations, value.time).Some?) ==>
        availableSlots == old(availableSlots)
    {
      date := value;
      selectedSlot := None;
      name := "";
      email := "";
      if !value.SingleDate? {
        return;
      }
      var key := JstDay(value.time);
      if key.None? {
        return;
      }
      var reservedSlots := ReservedOn(reservations, key.value);
      var available := Available(AllSlots, reservedSlots);
      AvailableLabelsSpec(reservedSlots);
      availableSlots := Labels(available);
    }

    /** A slot button's `onClick`; the buttons are the offered labels. */
    method SelectSlot(slot: string)
      requires Valid() && slot in availableSlots
      modifies this`selectedSlot
      ensures Valid()
      ensures selectedSlot == Some(slot)
    {
      selectedSlot := Some(slot);
    }
  }

  // ---------------------------------------------------------------------
  // Tile and selection agree
  // ---------------------------------------------------------------------

  /**
   * For the same instant the tile and the click compute the same key and the
   * same filter: the tile shows the fully-booked marker exactly when the
   * click would offer no label, and otherwise shows the labels it would offer.
   */
  lemma TileMatchesSelection(reservations: map<int, seq<Interval>>, t: TimeValue)
    ensures TileContent(reservations, t).None? <==> SlotsFor(reservations, t).None?
    ensures TileContent(reservations, t) == Some(SoldOut) <==> SlotsFor(reservations, t) == Some([])
    ensures forall ls :: TileContent(reservations, t) == Some(Open(ls)) <==> SlotsFor(reservations, t) == Some(ls) && ls != []
  {
  }

  /** A date without reservations offers every catalog label, in catalog order. */
  lemma FreeDateOffersCatalog(reservations: map<int, seq<Interval>>, t: TimeValue)
    requires JstDay(t).Some? && JstDay(t).value !in reservations
    ensures SlotsFor(reservations, t) == Some(["9-17", "18-22", "9-22"])
  {
    NoReservations();
  }

  /**
   * A fetched row that books exactly catalog slot `i` on day `d` removes that
   * slot's label from what the page offers for any instant keyed to `d`.
   */
  lemma BookedSlotIsWithdrawn(rows: seq<Row>, j: nat, i: nat, t: TimeValue)
    requires j < |rows| && i < |AllSlots|
    requires rows[j].startTime == AllSlots[i].start && rows[j].endTime == AllSlots[i].end
    requires JstDay(t) == Some(rows[j].reservationDate)
    requires FourDigitYear(rows[j].reservationDate)
    ensures SlotsFor(Grouped(rows), t).Some?
    ensures AllSlots[i].name !in SlotsFor(Grouped(rows), t).value
  {
    var d := rows[j].reservationDate;
    var s := AllSlots[i];
    GroupedPosition(rows, j);
    var reserved := ReservedOn(Grouped(rows), d);
    assert Entry(rows[j]) in reserved;
    CatalogWellFormed();
    ExactMatchExcludes(s, reserved);
    FreeIffNoOverlap(s, reserved);
    AvailableLabelsSpec(reserved);
  }

  /**
   * An instant whose key falls outside years 0000-9999 finds no reservation:
   * every catalog label is offered, whatever was fetched.
   */
  lemma ExpandedYearMisses(reservations: map<int, seq<Interval>>, t: TimeValue)
    requires JstDay(t).Some? && !FourDigitYear(JstDay(t).value)
    ensures SlotsFor(reservations, t) == Some(["9-17", "18-22", "9-22"])
  {
    NoReservations();
  }

  /**
   * One more fetched row never makes a label appear for any date: what is
   * offered after the fetch is a sublist of what was offered before.
   */
  lemma FetchMoreShrinks(rows: seq<Row>, row: Row, t: TimeValue)
    requires JstDay(t).Some?
    ensures Sublist(SlotsFor(Grouped(rows + [row]), t).value, SlotsFor(Grouped(rows), t).value)
  {
    var d := JstDay(t).value;
    GroupedSnoc(rows, row);
    if d == row.reservationDate && FourDigitYear(d) {
      AddingReservationShrinks(ReservedOn(Grouped(rows), d), Entry(row));
    } else {
      SublistReflexive(AvailableLabels(ReservedOn(Grouped(rows), d)));
    }
  }
}

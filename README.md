# Studio reservation page: availability core

This project models the availability logic of the studio-reservation page
(`src/app/reserve/page.tsx`). On that page a visitor picks a day on a
calendar. The page then offers the time slots that no reservation on that
day covers or overlaps. The bounds are half-open, so a reservation that only
meets a slot at its edge leaves the slot on offer.

The model has seven modules:

- `Wrappers`: the `Option` type, used for a key that cannot be computed.
- `TimeText`: times of day are `"HH:MM:SS"` strings. The page compares them
  with JavaScript's `<` and `<=` on strings. `Less` is that string order,
  and `AtMost` is `<=`, which JavaScript defines as `!(b < a)`. `Clock`
  writes a second of the day in zero-padded form. `ClockOrder` proves that
  on such strings the string order is the numeric order of the seconds.
- `Slots`: the catalog `ALL_SLOTS`. It holds three labelled ranges in a fixed
  order: "9-17", "18-22" and "9-22".
- `Availability`: the filter. A slot is dropped when some reservation on that
  date fully covers it (`start <= slot.start && end >= slot.end`) or partly
  overlaps it (`start < slot.end && end > slot.start`). The filter is
  written once, as `Available`. The click handler and the calendar tile both
  use it.
- `Grouping`: the fetched rows become a dictionary from date to a list of
  `{start, end}` intervals. `MapReservations` is the in-place loop. `Grouped`
  states the same dictionary directly, and the method is proved equal to it.
- `DateKey`: the lookup key of a calendar instant. The page adds nine hours
  (UTC+9) and takes the UTC calendar date of the result. Days are numbered
  from 1970-01-01, so the key is `floor((t + 32400000) / 86400000)`.
  `LocalMidnightKey` shows when this key is the day that was clicked. The
  calendar hands over local midnight, and the key is that day exactly when
  the browser's offset from UTC lies in (UTC-15, UTC+9]. A browser east of
  UTC+9 gets the previous day. Only days in years 0000 to 9999 have a
  `"YYYY-MM-DD"` key text. Any other day gets an expanded-year text, which no
  fetched date matches (`FourDigitYear`).
- `Reserve`: the page state as a class `ReservePage`. It holds the
  reservations dictionary, the chosen date, the offered labels, the chosen
  slot, and the name and e-mail fields. Its methods are
  `FetchReservations`, `HandleDateSelect` and `SelectSlot`. The functions
  `SlotsFor` and `TileContent` give what the click handler and a calendar
  tile show for an instant.

What the page does not do, and so the model does not either:

- Booked intervals carry no pending/confirmed status. The query fetches only
  `reservation_date`, `start_time` and `end_time`.
- There is no live form validation, pricing or booking submission on this
  page. The submission code is commented out.
- There is no live write path, so no date is normalised to UTC+9 on the way
  into the database.

## Model

| member | source | states |
|---|---|---|
| `TimeText.Less` | src/app/reserve/page.tsx:99 | JavaScript's `a < b` on strings; it never holds between equal strings |
| `TimeText.AtMost` | src/app/reserve/page.tsx:93 | JavaScript's `a <= b` on strings, `!(b < a)`; it holds between equal strings |
| `TimeText.AtMostIff` | src/app/reserve/page.tsx:93 | JavaScript's `a <= b` on strings, defined as `!(b < a)`, holds exactly when `a < b` or `a == b` |
| `TimeText.LessTransitive` | src/app/reserve/page.tsx:99 | the string `<` used by the overlap test is transitive |
| `TimeText.LessTotal` | src/app/reserve/page.tsx:99 | any two distinct strings are ordered one way or the other by `<` |
| `TimeText.LessIrreflexive` | src/app/reserve/page.tsx:99 | no string is `<` itself, which is what makes the bounds half-open |
| `TimeText.ClockOrder` | src/app/reserve/page.tsx:14-18 | on zero-padded `"HH:MM:SS"` strings, string `<` is `<` on the seconds of the day, and the rendering is one-to-one |
| `TimeText.ClockAtMost` | src/app/reserve/page.tsx:93 | on zero-padded times, string `<=` is `<=` on the seconds |
| `Slots.Labels` | src/app/reserve/page.tsx:105 | `available.map((slot) => slot.label)`: one label per slot, the `i`-th label being the `i`-th slot's |
| `Slots.CatalogClocks` | src/app/reserve/page.tsx:14-18 | the catalog bounds are the clock texts of 09:00, 17:00, 18:00 and 22:00 |
| `Slots.CatalogWellFormed` | src/app/reserve/page.tsx:14-18 | every catalog slot starts strictly before it ends |
| `Slots.CatalogLabels` | src/app/reserve/page.tsx:14-18 | the catalog labels are `Distinct` and read "9-17", "18-22", "9-22" in that order |
| `Availability.Covers` | src/app/reserve/page.tsx:91-94 | the full-coverage test; a reservation with exactly the slot's bounds passes it |
| `Availability.Overlaps` | src/app/reserve/page.tsx:97-100 | the partial-overlap test; it never passes when the reservation ends where the slot starts or starts where it ends |
| `Availability.IsFullyBooked` | src/app/reserve/page.tsx:91-94 | `isFullyBooked`: some reservation of the date covers the slot; a reservation with exactly the slot's bounds makes it true |
| `Availability.IsPartiallyBooked` | src/app/reserve/page.tsx:97-100 | `isPartiallyBooked`: some reservation of the date overlaps the slot; it is never true for a date without reservations |
| `Availability.Free` | src/app/reserve/page.tsx:102 | the filter's test: neither fully nor partly booked; with no reservations every slot passes |
| `Availability.Available` | src/app/reserve/page.tsx:89-103 | the filter: the result is no longer than the input, and each slot in it is from the input and passes the test |
| `Availability.AvailableLabels` | src/app/reserve/page.tsx:89-105 | the labels the click handler offers; there are never more of them than catalog slots |
| `Availability.AvailableMembers` | src/app/reserve/page.tsx:89-103 | a slot is in the filter's result exactly when it is in the input and no reservation covers or overlaps it |
| `Availability.AvailableSublist` | src/app/reserve/page.tsx:89-103 | the result is the input with some slots dropped and the rest in their original order |
| `Availability.SublistLabels` | src/app/reserve/page.tsx:105 | mapping to labels keeps the sublist relation |
| `Availability.SublistDistinct` | src/app/reserve/page.tsx:105 | dropping elements never creates a duplicate label |
| `Availability.CoversImpliesOverlaps` | src/app/reserve/page.tsx:91-100 | for a slot with start < end, any reservation that fully covers it also overlaps it |
| `Availability.FreeIffNoOverlap` | src/app/reserve/page.tsx:91-102 | for a slot with start < end, the two-branch test keeps it exactly when no reservation overlaps it, so the full-coverage branch never decides anything |
| `Availability.TouchingDoesNotExclude` | src/app/reserve/page.tsx:97-100 | a reservation that ends where the slot starts, or starts where it ends, neither covers nor overlaps it (half-open bounds) |
| `Availability.ExactMatchExcludes` | src/app/reserve/page.tsx:91-94 | a reservation with exactly a slot's bounds excludes that slot |
| `Availability.OverlapInSeconds` | src/app/reserve/page.tsx:91-100 | with zero-padded times, overlap is `a < d && c < b` and full cover is `a <= c && d <= b` on the seconds |
| `Availability.FreeAntitone` | src/app/reserve/page.tsx:91-102 | a slot that is free under a larger set of reservations is free under a smaller one |
| `Availability.AvailableShrinks` | src/app/reserve/page.tsx:89-103 | with more reservations the result is a sublist of the result with fewer |
| `Availability.AddingReservationShrinks` | src/app/reserve/page.tsx:88-105 | adding one interval to a date's list only ever removes labels from what that date offers |
| `Availability.NoReservations` | src/app/reserve/page.tsx:88-105 | with no reservations the labels are "9-17", "18-22", "9-22", in catalog order |
| `Availability.AvailableLabelsSpec` | src/app/reserve/page.tsx:89-105 | the offered labels are an order-preserving, duplicate-free sublist of the catalog labels, and a catalog slot's label is offered exactly when no reservation overlaps the slot |
| `Availability.DaytimeBookingOverlaps` | src/app/reserve/page.tsx:97-100 | a 09:00:00-17:00:00 reservation overlaps "9-17" and "9-22" but not "18-22" |
| `Availability.DaytimeBookingExample` | src/app/reserve/page.tsx:88-105 | with a single 09:00:00-17:00:00 reservation only "18-22" is offered |
| `Grouping.Entry` | src/app/reserve/page.tsx:71 | the pushed `{ start, end }`: its start is the row's `start_time` and its end the row's `end_time` |
| `Grouping.Grouped` | src/app/reserve/page.tsx:66-72 | the dictionary of the fetched rows by date; no date in it maps to an empty list |
| `Grouping.DatesHaveIntervals` | src/app/reserve/page.tsx:68-71 | every date that occurs in the rows has at least one interval |
| `Grouping.OnAppend` | src/app/reserve/page.tsx:67-72 | a date's intervals from two runs of rows are the first run's followed by the second's |
| `Grouping.OnEmpty` | src/app/reserve/page.tsx:68-70 | a date has intervals exactly when some fetched row carries that date |
| `Grouping.OnCount` | src/app/reserve/page.tsx:71 | a date's list is as long as the number of rows with that date |
| `Grouping.GroupedSnoc` | src/app/reserve/page.tsx:68-71 | one more row appends its interval to its date's list, creating the list if it is missing, and leaves other dates alone |
| `Grouping.MapReservations` | src/app/reserve/page.tsx:66-72 | the in-place loop over the rows builds exactly the dictionary `Grouped` of the fetched rows |
| `Grouping.GroupedShape` | src/app/reserve/page.tsx:66-72 | the keys are exactly the fetched dates, no key maps to an empty list, and each list has one entry per row of that date |
| `Grouping.GroupedPosition` | src/app/reserve/page.tsx:66-72 | row `j` sits in its date's list at the position equal to the number of earlier rows with that date, so the lists keep fetch order |
| `DateKey.JstDay` | src/app/reserve/page.tsx:84-85 | the key of an instant: a day whose 24 hours contain the instant shifted by +9 h; no key (`toISOString` throws) only within nine hours of the end of the time range |
| `DateKey.JstDaySpec` | src/app/reserve/page.tsx:84-85 | the key is the day whose 24 hours, shifted by +9 h, contain the instant |
| `DateKey.JstDayDefined` | src/app/reserve/page.tsx:84-85 | the key fails (`toISOString` throws) only for instants within nine hours of the end of the time range |
| `DateKey.JstDayMonotone` | src/app/reserve/page.tsx:84-85 | a later instant never gets an earlier key |
| `DateKey.LocalMidnightKey` | src/app/reserve/page.tsx:84-85 | the local midnight of day `d` in a browser at offset `o` gets key `d` exactly when `o` is in (9 h - 24 h, 9 h] |
| `DateKey.JstMidnightKey` | src/app/reserve/page.tsx:144-145 | a midnight in UTC+9 always gets its own day as its key |
| `Reserve.ReservedOn` | src/app/reserve/page.tsx:88 | the day's reserved intervals, or none: a non-empty answer is the dictionary's list for that day, and only a day with a four-digit year can be found |
| `Reserve.SlotsFor` | src/app/reserve/page.tsx:83-105 | what a click on a single date offers: nothing exactly when the key throws, otherwise catalog labels in catalog order without repeats |
| `Reserve.TileContent` | src/app/reserve/page.tsx:143-169 | what a tile shows: `None` (the key throws) exactly when the key cannot be computed; a list of labels is never empty and is a catalog-ordered sublist of the catalog labels |
| `Reserve.ReservePage.constructor` | src/app/reserve/page.tsx:45-58 | the page starts with no date, no offered labels, no slot, empty name and e-mail, and an empty dictionary |
| `Reserve.ReservePage.FetchReservations` | src/app/reserve/page.tsx:59-74 | on a fetch error the dictionary is unchanged; otherwise it becomes `Grouped` of the rows; the page invariant is kept |
| `Reserve.ReservePage.HandleDateSelect` | src/app/reserve/page.tsx:77-106 | records the value and clears the slot, name and e-mail; for a single date with a computable key, the offered labels become that date's free labels; otherwise they are unchanged; the dictionary is untouched |
| `Reserve.ReservePage.SelectSlot` | src/app/reserve/page.tsx:175-182 | clicking the button of an offered label makes it the selected slot, and the page invariant (a chosen slot is an offered label) is kept |
| `Reserve.TileMatchesSelection` | src/app/reserve/page.tsx:143-169 | for the same instant, the tile and the click use the same key and filter: the tile shows the fully-booked marker exactly when no label would be offered, and otherwise shows the labels that would be offered |
| `Reserve.FreeDateOffersCatalog` | src/app/reserve/page.tsx:88 | a date with no dictionary entry offers all three catalog labels in catalog order |
| `Reserve.BookedSlotIsWithdrawn` | src/app/reserve/page.tsx:66-105 | a fetched row that books exactly a catalog slot on a day with a four-digit year removes that slot's label from what the page offers for that day |
| `Reserve.ExpandedYearMisses` | src/app/reserve/page.tsx:84-88 | a day outside years 0000-9999 finds no reservation, so all three catalog labels are offered whatever was fetched |
| `Reserve.FetchMoreShrinks` | src/app/reserve/page.tsx:66-105 | one more fetched row never makes a label appear on any date |

## Left out

- The Supabase query and its client are not modelled, because they are remote I/O. The rows or the error come in as a `FetchResponse` parameter. The `console.error` logging is left out.
- `useEffect`, JSX rendering and the dynamically imported `react-calendar` widget are not modelled, because they are UI. React batches `useState` updates and applies them at the next render. The model assigns the fields at once, so ordering against renders is not captured.
- The `"YYYY-MM-DD"` text of `Date.prototype.toISOString` is not modelled. A day is its number counted from 1970-01-01, on both the key side and the `reservation_date` side. For years 0000 to 9999 the text is one-to-one with the number, so keying by number gives the same lookups.
- `DateKey.JstDay` returns a day number for every instant it can key, including days outside years 0000-9999. There `toISOString` writes an expanded year such as `"+010000-01-01"`, which no fetched date matches. `Reserve.ReservedOn` captures this by finding nothing for such a day. The model does not say which text the database would give for those days.
- `Reserve.BookedSlotIsWithdrawn` holds only for days with four-digit years. For other days the lookup misses and the booked label stays on offer (`Reserve.ExpandedYearMisses`).
- Where the `RangeError` that `toISOString` throws goes is not modelled. `Reserve.SlotsFor`, `Reserve.TileContent` and `HandleDateSelect` stop at the throw with `None` or with the labels unchanged. In the page nothing catches it: in `handleDateSelect` it escapes after the four resets, and in `tileContent` it aborts the calendar's render. This happens only for instants within nine hours of the end of the time range.
- A `Date` holding NaN is not modelled. `TimeValue` covers only valid dates.
- A calendar range value (`[from, to]`) is modelled only as "not a single `Date`". That is all the handler looks at.
- `TimeText.Less` compares Dafny characters, which are Unicode scalar values. JavaScript compares UTF-16 code units. The two agree below U+10000, which covers every time string the page handles.
- The commented-out booking submission (src/app/reserve/page.tsx:109-135) and RPC example (src/app/reserve/page.tsx:19-42) are not modelled, because they are not live code.
- `src/app/api/notify/route.ts` is not modelled. It only forwards a message to a chat webhook over the network.
- `src/app/page.tsx` and `src/app/layout.tsx` are not modelled. They only do routing and layout.
- `src/app/reserve/page copy.tsx` is not modelled. It is an older copy of the page.

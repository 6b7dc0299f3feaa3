/**
 * The slot catalog: the fixed, ordered list of bookable time ranges of a day,
 * each with the label the page shows and its "HH:MM:SS" bounds.
 */
module Slots {
  import opened TimeText

  /** A catalog entry; `name` is the label the page shows (`label` is a Dafny keyword). */
  datatype Slot = Slot(name: string, start: string, end: string)

  /** The catalog, in the order the page lists it. */
  const AllSlots: seq<Slot> := [
    Slot("9-17", "09:00:00", "17:00:00"),
    Slot("18-22", "18:00:00", "22:00:00"),
    Slot("9-22", "09:00:00", "22:00:00")
  ]

  /** A slot that starts strictly before it ends. */
  predicate WellFormed(s: Slot)
  {
    Less(s.start, s.end)
  }

  /** The labels (`name`s) of `slots`, in order. */
  function Labels(slots: seq<Slot>): (ls: seq<string>)
    ensures |ls| == |slots|
    ensures forall i :: 0 <= i < |slots| ==> ls[i] == slots[i].name
  {
    if slots == [] then [] else [slots[0].name] + Labels(slots[1..])
  }

  /** No element of `xs` occurs twice. */
  predicate Distinct<T(==)>(xs: seq<T>)
  {
    forall i, j :: 0 <= i < j < |xs| ==> xs[i] != xs[j]
  }

  /** The clock texts of the hours the catalog's slots start at. */
  lemma StartHourTexts()
    ensures Clock(9 * 3600) == "09:00:00" && Clock(18 * 3600) == "18:00:00"
  {
    HourClock(9);
    HourClock(18);
  }

  /** The clock texts of the hours the catalog's slots end at. */
  lemma EndHourTexts()
    ensures Clock(17 * 3600) == "17:00:00" && Clock(22 * 3600) == "22:00:00"
  {
    HourClock(17);
    HourClock(22);
  }

  /** The catalog's bounds are the clock texts of 09:00, 17:00, 18:00 and 22:00. */
  lemma CatalogClocks()
    ensures AllSlots[0].start == Clock(9 * 3600) && AllSlots[0].end == Clock(17 * 3600)
    ensures AllSlots[1].start == Clock(18 * 3600) && AllSlots[1].end == Clock(22 * 3600)
    ensures AllSlots[2].start == Clock(9 * 3600) && AllSlots[2].end == Clock(22 * 3600)
  {
    StartHourTexts();
    EndHourTexts();
  }

  /** Every catalog slot starts strictly before it ends. */
  lemma CatalogWellFormed()
    ensures forall s :: s in AllSlots ==> WellFormed(s)
  {
    assert WellFormed(AllSlots[0]) && WellFormed(AllSlots[1]) && WellFormed(AllSlots[2]);
  }

  /** The catalog labels read "9-17", "18-22", "9-22", and no two are equal. */
  lemma CatalogLabels()
    ensures Distinct(Labels(AllSlots))
    ensures Labels(AllSlots) == ["9-17", "18-22", "9-22"]
  {
  }
}

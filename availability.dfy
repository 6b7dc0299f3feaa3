/**
 * The availability filter: which catalog slots stay bookable on a date, given
 * the reservations recorded for that date. A slot is dropped when some
 * reservation covers it entirely or overlaps it partly; times are compared
 * as JavaScript compares strings.
 */
module Availability {
  import opened TimeText
  import opened Slots

  /** A reserved time range of one date, as the page stores it (`{start, end}`). */
  datatype Interval = Interval(start: string, end: string)

  /** `reservation.start <= slot.start && reservation.end >= slot.end` */
  predicate Covers(r: Interval, s: Slot)
    ensures r.start == s.start && r.end == s.end ==> Covers(r, s)
  {
    AtMost(r.start, s.start) && AtMost(s.end, r.end)
  }

  /** `reservation.start < slot.end && reservation.end > slot.start` */
  predicate Overlaps(r: Interval, s: Slot)
    ensures Overlaps(r, s) ==> r.start != s.end && r.end != s.start
  {
    Less(r.start, s.end) && Less(s.start, r.end)
  }

  /** `isFullyBooked`: `reservedSlots.some(...)` of the full-coverage test. */
  predicate IsFullyBooked(s: Slot, reserved: seq<Interval>)
    ensures Interval(s.start, s.end) in reserved ==> IsFullyBooked(s, reserved)
  {
    exists r :: r in reserved && Covers(r, s)
  }

  /** `isPartiallyBooked`: `reservedSlots.some(...)` of the overlap test. */
  predicate IsPartiallyBooked(s: Slot, reserved: seq<Interval>)
    ensures IsPartiallyBooked(s, reserved) ==> reserved != []
  {
    exists r :: r in reserved && Overlaps(r, s)
  }

  /** The filter's test: `!(isFullyBooked || isPartiallyBooked)`. */
  predicate Free(s: Slot, reserved: seq<Interval>)
    ensures reserved == [] ==> Free(s, reserved)
  {
    !(IsFullyBooked(s, reserved) || IsPartiallyBooked(s, reserved))
  }

  /** `slots.filter(...)`: the free slots, in the order of `slots`. */
  function Available(slots: seq<Slot>, reserved: seq<Interval>): (kept: seq<Slot>)
    ensures |kept| <= |slots|
    ensures forall s :: s in kept ==> s in slots && Free(s, reserved)
  {
    if slots == [] then []
    else (if Free(slots[0], reserved) then [slots[0]] else []) + Available(slots[1..], reserved)
  }

  /** The labels the page shows for a date whose reservations are `reserved`. */
  function AvailableLabels(reserved: seq<Interval>): (ls: seq<string>)
    ensures |ls| <= |AllSlots|
  {
    Labels(Available(AllSlots, reserved))
  }

  /** `xs` is `ys` with some elements dropped, the rest kept in order. */
  predicate Sublist<T(==)>(xs: seq<T>, ys: seq<T>)
    decreases |ys|
  {
    if xs == [] then true
    else if ys == [] then false
    else (xs[0] == ys[0] && Sublist(xs[1..], ys[1..])) || Sublist(xs, ys[1..])
  }

  // ---------------------------------------------------------------------
  // What the filter keeps
  // ---------------------------------------------------------------------

  /** A slot is in the result exactly when it is in the input and free. */
  lemma {:induction false} AvailableMembers(slots: seq<Slot>, reserved: seq<Interval>, s: Slot)
    ensures s in Available(slots, reserved) <==> s in slots && Free(s, reserved)
    decreases |slots|
  {
    if slots != [] {
      AvailableMembers(slots[1..], reserved, s);
      assert slots == [slots[0]] + slots[1..];
    }
  }

  /** The result keeps catalog order: it never adds, reorders or repeats a slot. */
  lemma {:induction false} AvailableSublist(slots: seq<Slot>, reserved: seq<Interval>)
    ensures Sublist(Available(slots, reserved), slots)
    decreases |slots|
  {
    if slots != [] {
      var rest := Available(slots[1..], reserved);
      AvailableSublist(slots[1..], reserved);
      if Free(slots[0], reserved) {
        assert Available(slots, reserved) == [slots[0]] + rest;
        assert ([slots[0]] + rest)[1..] == rest;
      } else {
        assert Available(slots, reserved) == rest;
        SublistSkip(rest, slots);
      }
    }
  }

  /** A sublist of the tail is a sublist of the whole. */
  lemma SublistSkip<T>(xs: seq<T>, ys: seq<T>)
    requires ys != [] && Sublist(xs, ys[1..])
    ensures Sublist(xs, ys)
  {
  }

  lemma {:induction false} SublistLabels(xs: seq<Slot>, ys: seq<Slot>)
    requires Sublist(xs, ys)
    ensures Sublist(Labels(xs), Labels(ys))
    decreases |ys|
  {
    if xs != [] {
      assert Labels(xs)[1..] == Labels(xs[1..]);
      assert Labels(ys)[1..] == Labels(ys[1..]);
      if xs[0] == ys[0] && Sublist(xs[1..], ys[1..]) {
        SublistLabels(xs[1..], ys[1..]);
      } else {
        SublistLabels(xs, ys[1..]);
      }
    }
  }

  lemma {:induction false} SublistReflexive<T>(xs: seq<T>)
    ensures Sublist(xs, xs)
    decreases |xs|
  {
    if xs != [] {
      SublistReflexive(xs[1..]);
    }
  }

  /** Every element of a sublist is an element of the list. */
  lemma {:induction false} SublistMembers<T>(xs: seq<T>, ys: seq<T>, x: T)
    requires Sublist(xs, ys) && x in xs
    ensures x in ys
    decreases |ys|
  {
    if xs[0] == ys[0] && Sublist(xs[1..], ys[1..]) {
      if x != xs[0] {
        assert xs == [xs[0]] + xs[1..];
        SublistMembers(xs[1..], ys[1..], x);
      }
    } else {
      SublistMembers(xs, ys[1..], x);
    }
  }

  /** Dropping elements never creates a duplicate. */
  lemma {:induction false} SublistDistinct<T>(xs: seq<T>, ys: seq<T>)
    requires Sublist(xs, ys) && Distinct(ys)
    ensures Distinct(xs)
    decreases |ys|
  {
    if xs != [] {
      if xs[0] == ys[0] && Sublist(xs[1..], ys[1..]) {
        SublistDistinct(xs[1..], ys[1..]);
        forall j | 0 < j < |xs|
          ensures xs[0] != xs[j]
        {
          SublistMembers(xs[1..], ys[1..], xs[j]);
          assert ys == [ys[0]] + ys[1..];
        }
      } else {
        SublistDistinct(xs, ys[1..]);
      }
    }
  }

  // ---------------------------------------------------------------------
  // The exclusion rule
  // ---------------------------------------------------------------------

  /** For a slot that starts before it ends, full coverage is a case of overlap. */
  lemma CoversImpliesOverlaps(r: Interval, s: Slot)
    requires WellFormed(s) && Covers(r, s)
    ensures Overlaps(r, s)
  {
    AtMostLessTransitive(r.start, s.start, s.end);
    LessAtMostTransitive(s.start, s.end, r.end);
  }

  /**
   * On a well-formed slot the two-branch filter is the plain overlap test:
   * a slot is excluded exactly when some reservation overlaps it.
   */
  lemma FreeIffNoOverlap(s: Slot, reserved: seq<Interval>)
    requires WellFormed(s)
    ensures Free(s, reserved) <==> forall r :: r in reserved ==> !Overlaps(r, s)
  {
    if IsFullyBooked(s, reserved) {
      var r :| r in reserved && Covers(r, s);
      CoversImpliesOverlaps(r, s);
    }
  }

  /** Half-open bounds: a reservation that only touches a slot's edge leaves it alone. */
  lemma TouchingDoesNotExclude(r: Interval, s: Slot)
    requires WellFormed(s)
    requires r.end == s.start || r.start == s.end
    ensures !Covers(r, s) && !Overlaps(r, s)
  {
    LessIrreflexive(s.start);
    LessIrreflexive(s.end);
    LessAsymmetric(s.start, s.end);
  }

  /** A reservation with exactly a slot's bounds excludes it. */
  lemma ExactMatchExcludes(s: Slot, reserved: seq<Interval>)
    requires Interval(s.start, s.end) in reserved
    ensures !Free(s, reserved)
  {
    LessIrreflexive(s.start);
    LessIrreflexive(s.end);
    assert Covers(Interval(s.start, s.end), s);
  }

  /**
   * With zero-padded times the string test is the half-open interval test on
   * seconds: [a, b) and [c, d) overlap exactly when a < d and c < b.
   */
  lemma OverlapInSeconds(a: nat, b: nat, c: nat, d: nat, name: string)
    requires a < SecondsPerDay && b < SecondsPerDay && c < SecondsPerDay && d < SecondsPerDay
    ensures Overlaps(Interval(Clock(a), Clock(b)), Slot(name, Clock(c), Clock(d))) <==> a < d && c < b
    ensures Covers(Interval(Clock(a), Clock(b)), Slot(name, Clock(c), Clock(d))) <==> a <= c && d <= b
  {
    ClockOrder(a, d);
    ClockOrder(c, b);
    ClockAtMost(a, c);
    ClockAtMost(d, b);
  }

  // ---------------------------------------------------------------------
  // More reservations, fewer slots
  // ---------------------------------------------------------------------

  /** A slot free under a larger set of reservations is free under a smaller one. */
  lemma FreeAntitone(s: Slot, reserved: seq<Interval>, more: seq<Interval>)
    requires forall r :: r in reserved ==> r in more
    requires Free(s, more)
    ensures Free(s, reserved)
  {
  }

  /** Adding reservations only ever removes slots from the result, keeping the order. */
  lemma {:induction false} AvailableShrinks(slots: seq<Slot>, reserved: seq<Interval>, more: seq<Interval>)
    requires forall r :: r in reserved ==> r in more
    ensures Sublist(Available(slots, more), Available(slots, reserved))
    decreases |slots|
  {
    if slots != [] {
      var s := slots[0];
      var few, many := Available(slots[1..], reserved), Available(slots[1..], more);
      AvailableShrinks(slots[1..], reserved, more);
      if Free(s, more) {
        FreeAntitone(s, reserved, more);
        assert Available(slots, more) == [s] + many;
        assert Available(slots, reserved) == [s] + few;
        assert ([s] + many)[1..] == many && ([s] + few)[1..] == few;
      } else {
        assert Available(slots, more) == many;
        if Free(s, reserved) {
          assert Available(slots, reserved) == [s] + few;
          assert ([s] + few)[1..] == few;
          SublistSkip(many, [s] + few);
        } else {
          assert Available(slots, reserved) == few;
        }
      }
    }
  }

  /** Booking one more interval on a date never frees a slot there. */
  lemma AddingReservationShrinks(reserved: seq<Interval>, r: Interval)
    ensures Sublist(AvailableLabels(reserved + [r]), AvailableLabels(reserved))
  {
    AvailableShrinks(AllSlots, reserved, reserved + [r]);
    SublistLabels(Available(AllSlots, reserved + [r]), Available(AllSlots, reserved));
  }

  // ---------------------------------------------------------------------
  // The catalog through the filter
  // ---------------------------------------------------------------------

  /** No reservations: every catalog label, in catalog order. */
  lemma NoReservations()
    ensures AvailableLabels([]) == ["9-17", "18-22", "9-22"]
  {
    CatalogLabels();
    forall s | s in AllSlots
      ensures Free(s, [])
    {
    }
    assert Available(AllSlots, []) == AllSlots;
  }

  /**
   * The labels shown are an order-preserving, duplicate-free selection of the
   * catalog's labels, and a catalog slot's label is shown exactly when no
   * reservation overlaps that slot.
   */
  lemma AvailableLabelsSpec(reserved: seq<Interval>)
    ensures Sublist(AvailableLabels(reserved), Labels(AllSlots))
    ensures Distinct(AvailableLabels(reserved))
    ensures forall i :: 0 <= i < |AllSlots| ==>
      (AllSlots[i].name in AvailableLabels(reserved) <==> forall r :: r in reserved ==> !Overlaps(r, AllSlots[i]))
  {
    var kept := Available(AllSlots, reserved);
    CatalogWellFormed();
    CatalogLabels();
    AvailableSublist(AllSlots, reserved);
    SublistLabels(kept, AllSlots);
    SublistDistinct(AvailableLabels(reserved), Labels(AllSlots));
    forall i | 0 <= i < |AllSlots|
      ensures AllSlots[i].name in AvailableLabels(reserved) <==> forall r :: r in reserved ==> !Overlaps(r, AllSlots[i])
    {
      var s := AllSlots[i];
      AvailableMembers(AllSlots, reserved, s);
      FreeIffNoOverlap(s, reserved);
      if s.name in AvailableLabels(reserved) {
        var k :| 0 <= k < |kept| && Labels(kept)[k] == s.name;
        AvailableMembers(AllSlots, reserved, kept[k]);
        assert kept[k] in AllSlots;
        assert kept[k] == s;
      }
      if Free(s, reserved) {
        var k :| 0 <= k < |kept| && kept[k] == s;
        assert Labels(kept)[k] == s.name;
      }
    }
  }

  /** How a 09:00:00-17:00:00 booking meets each catalog slot. */
  lemma DaytimeBookingOverlaps()
    ensures var r := Interval("09:00:00", "17:00:00");
      Overlaps(r, AllSlots[0]) && !Overlaps(r, AllSlots[1]) && Overlaps(r, AllSlots[2])
  {
    var r := Interval("09:00:00", "17:00:00");
    assert Less(r.end, AllSlots[1].start);
    LessAsymmetric(r.end, AllSlots[1].start);
  }

  /** A 09:00:00-17:00:00 booking takes "9-17" and "9-22" and leaves "18-22". */
  lemma DaytimeBookingExample()
    ensures AvailableLabels([Interval("09:00:00", "17:00:00")]) == ["18-22"]
  {
    var r := Interval("09:00:00", "17:00:00");
    var s0, s1, s2 := AllSlots[0], AllSlots[1], AllSlots[2];
    CatalogWellFormed();
    CatalogLabels();
    DaytimeBookingOverlaps();
    FreeIffNoOverlap(s0, [r]);
    FreeIffNoOverlap(s1, [r]);
    FreeIffNoOverlap(s2, [r]);
    assert !Free(s0, [r]) && Free(s1, [r]) && !Free(s2, [r]);
    assert AllSlots[1..] == [s1, s2] && [s1, s2][1..] == [s2] && [s2][1..] == [];
    assert Available([s2], [r]) == [];
    assert Available([s1, s2], [r]) == [s1];
    assert Available(AllSlots, [r]) == [s1];
  }
}

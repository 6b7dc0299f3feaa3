/**
 * Times of day as the reservation page handles them: zero-padded "HH:MM:SS"
 * strings compared with JavaScript's relational operators on strings.
 *
 * `Less` and `AtMost` are JavaScript's `<` and `<=` on strings; `Clock`
 * renders a second of the day in the "HH:MM:SS" form the catalog and the
 * database use, and `ClockOrder` shows that on such strings the string order
 * is the order of the seconds they denote.
 */
module TimeText {

  /** `a < b` on JavaScript strings: element by element; a proper prefix is smaller. */
  predicate Less(a: string, b: string)
    ensures Less(a, b) ==> a != b
    decreases |a|
  {
    if |a| == 0 then |b| > 0
    else if |b| == 0 then false
    else if a[0] != b[0] then a[0] < b[0]
    else Less(a[1..], b[1..])
  }

  /** `a <= b` on JavaScript strings, which the language defines as `!(b < a)`. */
  predicate AtMost(a: string, b: string)
    ensures a == b ==> AtMost(a, b)
  {
    !Less(b, a)
  }

  lemma {:induction false} LessIrreflexive(a: string)
    ensures !Less(a, a)
    decreases |a|
  {
    if |a| > 0 {
      LessIrreflexive(a[1..]);
    }
  }

  lemma {:induction false} LessTransitive(a: string, b: string, c: string)
    requires Less(a, b) && Less(b, c)
    ensures Less(a, c)
    decreases |a|
  {
    if |a| > 0 && a[0] == b[0] && b[0] == c[0] {
      LessTransitive(a[1..], b[1..], c[1..]);
    }
  }

  /** Distinct strings are always ordered one way or the other. */
  lemma {:induction false} LessTotal(a: string, b: string)
    ensures a == b || Less(a, b) || Less(b, a)
    decreases |a|
  {
    if |a| > 0 && |b| > 0 && a[0] == b[0] {
      LessTotal(a[1..], b[1..]);
      if a[1..] == b[1..] {
        assert a == [a[0]] + a[1..] && b == [b[0]] + b[1..];
      }
    }
  }

  lemma LessAsymmetric(a: string, b: string)
    requires Less(a, b)
    ensures !Less(b, a)
  {
    if Less(b, a) {
      LessTransitive(a, b, a);
      LessIrreflexive(a);
    }
  }

  /** JavaScript's `a <= b` on strings is "less than or equal" in the usual sense. */
  lemma AtMostIff(a: string, b: string)
    ensures AtMost(a, b) <==> Less(a, b) || a == b
  {
    LessTotal(a, b);
    LessIrreflexive(a);
    if Less(a, b) {
      LessAsymmetric(a, b);
    }
  }

  lemma AtMostLessTransitive(a: string, b: string, c: string)
    requires AtMost(a, b) && Less(b, c)
    ensures Less(a, c)
  {
    AtMostIff(a, b);
    if a != b {
      LessTransitive(a, b, c);
    }
  }

  lemma LessAtMostTransitive(a: string, b: string, c: string)
    requires Less(a, b) && AtMost(b, c)
    ensures Less(a, c)
  {
    AtMostIff(b, c);
    if b != c {
      LessTransitive(a, b, c);
    }
  }

  /** Comparing two strings that share the length of their first parts. */
  lemma {:induction false} LessConcat(a1: string, a2: string, b1: string, b2: string)
    requires |a1| == |b1|
    ensures Less(a1 + a2, b1 + b2) <==> Less(a1, b1) || (a1 == b1 && Less(a2, b2))
    decreases |a1|
  {
    if |a1| == 0 {
      assert a1 + a2 == a2 && b1 + b2 == b2;
    } else {
      assert (a1 + a2)[0] == a1[0] && (a1 + a2)[1..] == a1[1..] + a2;
      assert (b1 + b2)[0] == b1[0] && (b1 + b2)[1..] == b1[1..] + b2;
      LessConcat(a1[1..], a2, b1[1..], b2);
      if a1[0] == b1[0] && a1[1..] == b1[1..] {
        assert a1 == [a1[0]] + a1[1..] && b1 == [b1[0]] + b1[1..];
      }
    }
  }

  const SecondsPerDay: nat := 86400

  function Digit(n: nat): char
    requires n < 10
  {
    ('0' as int + n) as char
  }

  /** The two-digit, zero-padded decimal form of `n`. */
  function Pad2(n: nat): (s: string)
    requires n < 100
    ensures |s| == 2
  {
    [Digit(n / 10), Digit(n % 10)]
  }

  /** Second `t` of the day as "HH:MM:SS". */
  function Clock(t: nat): (s: string)
    requires t < SecondsPerDay
    ensures |s| == 8
  {
    var minutes := t / 60;
    Pad2(minutes / 60) + ":" + Pad2(minutes % 60) + ":" + Pad2(t % 60)
  }

  lemma {:induction false} MulMonotone(k: nat, a: nat, b: nat)
    requires a <= b
    ensures k * a <= k * b
    decreases b - a
  {
    if a < b {
      MulMonotone(k, a, b - 1);
      assert k * b == k * (b - 1) + k;
    }
  }

  /** The clock text of a whole hour: its two digits, then ":00:00". */
  lemma HourClock(h: nat)
    requires h < 24
    ensures h * 3600 < SecondsPerDay
    ensures Clock(h * 3600) == [Digit(h / 10), Digit(h % 10)] + ":00:00"
  {
    assert h * 3600 == 60 * (60 * h);
    assert (h * 3600) / 60 == 60 * h && (h * 3600) % 60 == 0;
    assert (60 * h) / 60 == h && (60 * h) % 60 == 0;
    assert Pad2(0) == "00";
  }

  /** A smaller quotient by `k` means a smaller number. */
  lemma QuotientLess(x: nat, y: nat, k: nat)
    requires k > 0 && x / k < y / k
    ensures x < y
  {
    var qx, qy := x / k, y / k;
    assert x == k * qx + x % k && y == k * qy + y % k;
    MulMonotone(k, qx + 1, qy);
    assert k * (qx + 1) == k * qx + k;
  }

  /** Numbers compare as their quotient and remainder by `k` compare, lexicographically. */
  lemma DivModOrder(x: nat, y: nat, k: nat)
    requires k > 0
    ensures x < y <==> x / k < y / k || (x / k == y / k && x % k < y % k)
  {
    if x / k < y / k {
      QuotientLess(x, y, k);
    } else if y / k < x / k {
      QuotientLess(y, x, k);
    } else {
      assert x == k * (x / k) + x % k && y == k * (y / k) + y % k;
    }
  }

  lemma Pad2Order(x: nat, y: nat)
    requires x < 100 && y < 100
    ensures Less(Pad2(x), Pad2(y)) <==> x < y
    ensures Pad2(x) == Pad2(y) <==> x == y
  {
    DivModOrder(x, y, 10);
    assert Pad2(x) == [Digit(x / 10)] + [Digit(x % 10)];
    assert Pad2(y) == [Digit(y / 10)] + [Digit(y % 10)];
    LessConcat([Digit(x / 10)], [Digit(x % 10)], [Digit(y / 10)], [Digit(y % 10)]);
    assert Less([Digit(x % 10)], [Digit(y % 10)]) <==> x % 10 < y % 10 by {
      assert [Digit(x % 10)][1..] == [] && [Digit(y % 10)][1..] == [];
    }
    if Pad2(x) == Pad2(y) {
      assert x == 10 * (x / 10) + x % 10 && y == 10 * (y / 10) + y % 10;
    }
  }

  /** A two-digit field followed by the rest, with a ':' separator. */
  lemma FieldOrder(x: nat, y: nat, u: string, v: string)
    requires x < 100 && y < 100 && |u| == |v|
    ensures Less(Pad2(x) + ":" + u, Pad2(y) + ":" + v) <==> x < y || (x == y && Less(u, v))
    ensures Pad2(x) + ":" + u == Pad2(y) + ":" + v <==> x == y && u == v
  {
    Pad2Order(x, y);
    assert Pad2(x) + ":" + u == Pad2(x) + (":" + u);
    assert Pad2(y) + ":" + v == Pad2(y) + (":" + v);
    LessConcat(Pad2(x), ":" + u, Pad2(y), ":" + v);
    LessConcat(":", u, ":", v);
    LessIrreflexive(":");
    if Pad2(x) + ":" + u == Pad2(y) + ":" + v {
      assert (Pad2(x) + ":" + u)[..2] == Pad2(x) && (Pad2(y) + ":" + v)[..2] == Pad2(y);
      assert (Pad2(x) + ":" + u)[3..] == u && (Pad2(y) + ":" + v)[3..] == v;
    }
  }

  /** The hour, minute and second fields of second `t` of the day. */
  function Fields(t: nat): (nat, nat, nat)
  {
    (t / 60 / 60, t / 60 % 60, t % 60)
  }

  /** `x` comes before `y` when its fields do, compared left to right. */
  predicate FieldsBefore(x: nat, y: nat)
  {
    var (hx, mx, sx) := Fields(x);
    var (hy, my, sy) := Fields(y);
    hx < hy || (hx == hy && (mx < my || (mx == my && sx < sy)))
  }

  /** The string side: clock texts compare as their fields do. */
  lemma ClockFieldOrder(x: nat, y: nat)
    requires x < SecondsPerDay && y < SecondsPerDay
    ensures Less(Clock(x), Clock(y)) <==> FieldsBefore(x, y)
    ensures Clock(x) == Clock(y) <==> Fields(x) == Fields(y)
  {
    var mx, my := x / 60, y / 60;
    assert Clock(x) == Pad2(mx / 60) + ":" + (Pad2(mx % 60) + ":" + Pad2(x % 60));
    assert Clock(y) == Pad2(my / 60) + ":" + (Pad2(my % 60) + ":" + Pad2(y % 60));
    FieldOrder(mx / 60, my / 60, Pad2(mx % 60) + ":" + Pad2(x % 60), Pad2(my % 60) + ":" + Pad2(y % 60));
    FieldOrder(mx % 60, my % 60, Pad2(x % 60), Pad2(y % 60));
    Pad2Order(x % 60, y % 60);
  }

  /** The number side: seconds compare as their fields do. */
  lemma SecondsFieldOrder(x: nat, y: nat)
    ensures x < y <==> FieldsBefore(x, y)
    ensures x == y <==> Fields(x) == Fields(y)
  {
    var mx, my := x / 60, y / 60;
    DivModOrder(x, y, 60);
    DivModOrder(mx, my, 60);
    if Fields(x) == Fields(y) {
      assert mx == 60 * (mx / 60) + mx % 60 && my == 60 * (my / 60) + my % 60;
      assert x == 60 * mx + x % 60 && y == 60 * my + y % 60;
    }
  }

  /**
   * On zero-padded "HH:MM:SS" strings, JavaScript's string order is the
   * order of the seconds of the day they denote, and the rendering is
   * one-to-one.
   */
  lemma ClockOrder(x: nat, y: nat)
    requires x < SecondsPerDay && y < SecondsPerDay
    ensures Less(Clock(x), Clock(y)) <==> x < y
    ensures Clock(x) == Clock(y) <==> x == y
  {
    ClockFieldOrder(x, y);
    SecondsFieldOrder(x, y);
  }

  /** "AtMost" agrees with `<=` on the seconds, as a corollary. */
  lemma ClockAtMost(x: nat, y: nat)
    requires x < SecondsPerDay && y < SecondsPerDay
    ensures AtMost(Clock(x), Clock(y)) <==> x <= y
  {
    ClockOrder(y, x);
  }
}

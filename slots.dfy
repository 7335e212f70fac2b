/**
 * Delivery slots of the scheduler: the ten-minute windows of the daily
 * sending hours 07:00 to 18:50 (UTC), on the days after the run date.
 *
 * The loops of `write_emails` enumerate slots day by day, hour by hour,
 * minute by minute; `SlotOf` gives the k-th slot of that enumeration in
 * closed form, and `IndexOf` is its inverse on valid slots.
 */
module Slots {

  /** First sending hour (`range(7, 19)` starts at 7). */
  const FirstHour: nat := 7
  /** Hour at which sending stops (exclusive bound of `range(7, 19)`). */
  const EndHour: nat := 19
  /** Minute granularity (`range(0, 51, 10)`). */
  const MinuteStep: nat := 10
  /** Number of minutes in `range(0, 51, 10)`. */
  const SlotsPerHour: nat := 6
  /** Twelve hours of six slots each. */
  const SlotsPerDay: nat := 72

  /** A delivery time, kept abstract: the day offset after the run date, the hour and the minute. */
  datatype Slot = Slot(day: nat, hour: nat, minute: nat)

  /** A slot the loops can produce: day offset at least 1, hour in [7, 19), minute in {0, 10, ..., 50}. */
  predicate ValidSlot(s: Slot) {
    1 <= s.day && FirstHour <= s.hour < EndHour && s.minute < 60 && s.minute % MinuteStep == 0
  }

  /** The k-th slot (0-based) of the day/hour/minute enumeration. */
  function SlotOf(k: nat): (s: Slot)
    ensures ValidSlot(s)
  {
    Slot(1 + k / SlotsPerDay, FirstHour + (k % SlotsPerDay) / SlotsPerHour, MinuteStep * (k % SlotsPerHour))
  }

  /** The position of a valid slot in the enumeration. */
  function IndexOf(s: Slot): nat
    requires ValidSlot(s)
  {
    (s.day - 1) * SlotsPerDay + (s.hour - FirstHour) * SlotsPerHour + s.minute / MinuteStep
  }

  /** Chronological order of slots: by day, then hour, then minute. */
  predicate SlotLe(a: Slot, b: Slot) {
    a.day < b.day || (a.day == b.day && (a.hour < b.hour || (a.hour == b.hour && a.minute <= b.minute)))
  }

  /** Division by a positive divisor is determined by the bounds of the quotient. */
  lemma DivBetween(x: nat, d: nat, p: nat)
    requires d > 0
    requires p * d <= x < p * d + d
    ensures x / d == p && x % d == x - p * d
  {
    var q, r := x / d, x % d;
    assert x == q * d + r;
    if q < p {
      MulLe(q + 1, p, d);
      assert false;
    } else if q > p {
      MulLe(p + 1, q, d);
      assert false;
    }
  }

  lemma MulLe(a: nat, b: nat, d: nat)
    requires a <= b
    ensures a * d <= b * d
  {
    assert b * d == a * d + (b - a) * d;
  }

  /** Enumerating then locating gives back the position. */
  lemma {:induction false} IndexOfSlotOf(k: nat)
    ensures IndexOf(SlotOf(k)) == k
  {
    var a, r := k / SlotsPerDay, k % SlotsPerDay;
    var b, c := r / SlotsPerHour, r % SlotsPerHour;
    assert k == a * 72 + r;
    assert r == b * 6 + c;
    DivBetween(k, 6, 12 * a + b);
    assert k % SlotsPerHour == c;
  }

  /** Locating then enumerating gives back the slot. */
  lemma SlotOfIndexOf(s: Slot)
    requires ValidSlot(s)
    ensures SlotOf(IndexOf(s)) == s
  {
    var m := s.minute / MinuteStep;
    var r := (s.hour - FirstHour) * SlotsPerHour + m;
    assert 0 <= r < SlotsPerDay;
    DivBetween(IndexOf(s), 72, s.day - 1);
    assert IndexOf(s) % SlotsPerDay == r;
    DivBetween(r, 6, s.hour - FirstHour);
    DivBetween(IndexOf(s), 6, (s.day - 1) * 12 + s.hour - FirstHour);
    assert MinuteStep * m == s.minute;
  }

  /** On valid slots, chronological order is the order of positions. */
  lemma SlotLeIndex(a: Slot, b: Slot)
    requires ValidSlot(a) && ValidSlot(b)
    ensures SlotLe(a, b) <==> IndexOf(a) <= IndexOf(b)
  {
    var ra := (a.hour - FirstHour) * SlotsPerHour + a.minute / MinuteStep;
    var rb := (b.hour - FirstHour) * SlotsPerHour + b.minute / MinuteStep;
    assert 0 <= ra < SlotsPerDay && 0 <= rb < SlotsPerDay;
    if a.day < b.day {
      MulLe(a.day, b.day - 1, SlotsPerDay);
    } else if a.day > b.day {
      MulLe(b.day, a.day - 1, SlotsPerDay);
    }
  }

  /** The enumeration is chronological: later positions are never earlier slots, and conversely. */
  lemma SlotOfMonotone(k1: nat, k2: nat)
    ensures k1 <= k2 <==> SlotLe(SlotOf(k1), SlotOf(k2))
  {
    IndexOfSlotOf(k1);
    IndexOfSlotOf(k2);
    SlotLeIndex(SlotOf(k1), SlotOf(k2));
  }

  /** Distinct positions are distinct slots. */
  lemma SlotOfInjective(k1: nat, k2: nat)
    ensures SlotOf(k1) == SlotOf(k2) <==> k1 == k2
  {
    IndexOfSlotOf(k1);
    IndexOfSlotOf(k2);
  }

  /** Day d consists of exactly the 72 positions 72(d-1) .. 72d-1. */
  lemma SlotsOfDay(k: nat, d: nat)
    ensures SlotOf(k).day == d <==> 1 <= d && (d - 1) * SlotsPerDay <= k < d * SlotsPerDay
  {
    if 1 <= d && (d - 1) * SlotsPerDay <= k < d * SlotsPerDay {
      DivBetween(k, SlotsPerDay, d - 1);
    }
  }

  /** The smallest c with n <= c * d: Python's `math.ceil(n / d)` on exact values. */
  function CeilDiv(n: nat, d: nat): (c: nat)
    requires d > 0
    ensures n <= c * d
    ensures c > 0 ==> (c - 1) * d < n
  {
    var x := n + d - 1;
    assert x == (x / d) * d + x % d;
    x / d
  }

  /** The two properties of `CeilDiv` determine it. */
  lemma CeilDivUnique(n: nat, d: nat, p: nat)
    requires d > 0
    requires n <= p * d
    requires p > 0 ==> (p - 1) * d < n
    ensures p == CeilDiv(n, d)
  {
    var c := CeilDiv(n, d);
    if p < c {
      MulLe(p, c - 1, d);
    } else if c < p {
      MulLe(c, p - 1, d);
    }
  }

  /**
   * Number of days the outer loop runs for `total` rows and a quota of `quota`
   * rows per slot: `math.ceil(total / (quota * 72))`.
   */
  function DayBound(total: nat, quota: nat): (days: nat)
    requires quota > 0
    ensures total <= days * SlotsPerDay * quota
    ensures days > 0 ==> (days - 1) * SlotsPerDay * quota < total
  {
    CeilDiv(total, quota * SlotsPerDay)
  }

  /** The days of `DayBound` hold at least one slot per packet of `quota` rows. */
  lemma DayBoundSuffices(total: nat, quota: nat)
    requires quota > 0
    ensures CeilDiv(total, quota) <= DayBound(total, quota) * SlotsPerDay
  {
    var c, p := CeilDiv(total, quota), DayBound(total, quota) * SlotsPerDay;
    if c > 0 && p < c {
      MulLe(p, c - 1, quota);
    }
  }
}

/** Timestamps of the generator: hours and milliseconds drawn inside the start/reference window. */
module EventTimes {

  datatype Instant = Instant(day: int, hour: nat, minute: nat, second: nat, microsecond: nat)

  predicate IsInstant(t: Instant) {
    t.hour < 24 && t.minute < 60 && t.second < 60 && t.microsecond < 1_000_000
  }

  /** Microseconds since the start of day 0: the order of instants. */
  function Micros(t: Instant): int {
    (((t.day * 24 + t.hour) * 60 + t.minute) * 60 + t.second) * 1_000_000 + t.microsecond
  }

  function TruncatedToMillisecond(t: Instant): Instant {
    t.(microsecond := t.microsecond / 1_000 * 1_000)
  }

  function MillisecondOfHour(t: Instant): nat {
    t.minute * 60_000 + t.second * 1_000 + t.microsecond / 1_000
  }

  /** Events carry the date of `start`. */
  predicate IsAllowedHour(start: Instant, reference: Instant, hour: nat) {
    var isBeforeStart := hour < start.hour;
    var isAfterReference := start.day == reference.day && hour > reference.hour;
    !(isBeforeStart || isAfterReference)
  }

  function AllowedHours(start: Instant, reference: Instant, below: nat): seq<nat> {
    if below == 0 then []
    else
      AllowedHours(start, reference, below - 1)
      + if IsAllowedHour(start, reference, below - 1) then [below - 1] else []
  }

  function MillisecondBounds(start: Instant, reference: Instant, hour: nat): (nat, nat) {
    var lower := if hour == start.hour then MillisecondOfHour(start) else 0;
    var upper := if start.day == reference.day && hour == reference.hour then MillisecondOfHour(reference) else 3_599_999;
    (lower, upper)
  }

  function OccurredAt(start: Instant, hour: nat, millisecond: nat): Instant {
    var minute, remainder := millisecond / 60_000, millisecond % 60_000;
    Instant(start.day, hour, minute, remainder / 1_000, remainder % 1_000 * 1_000)
  }

  /** What `_choose_occurred_at` can return: an allowed hour and a millisecond within its bounds. */
  ghost predicate Drawable(start: Instant, reference: Instant, t: Instant) {
    exists hour: nat, millisecond: nat ::
      && hour in AllowedHours(start, reference, 24)
      && MillisecondBounds(start, reference, hour).0 <= millisecond <= MillisecondBounds(start, reference, hour).1
      && t == OccurredAt(start, hour, millisecond)
  }

  lemma {:induction false} AllowedHoursMeaning(start: Instant, reference: Instant, below: nat)
    ensures forall hour: nat :: hour in AllowedHours(start, reference, below) <==>
              hour < below && IsAllowedHour(start, reference, hour)
  {
    if below == 0 {
    } else {
      AllowedHoursMeaning(start, reference, below - 1);
    }
  }

  /** Instants compare like their parts, the day first. */
  lemma OrderWithinDay(a: Instant, b: Instant)
    requires IsInstant(a) && IsInstant(b)
    ensures a.day < b.day ==> Micros(a) < Micros(b)
    ensures a.day == b.day ==> (a.hour < b.hour ==> Micros(a) < Micros(b))
    ensures a.day == b.day && a.hour == b.hour ==>
              (MillisecondOfHour(a) < MillisecondOfHour(b) ==> Micros(a) < Micros(b))
  {
  }

  lemma RebuiltFromDigits(start: Instant, hour: nat, millisecond: nat)
    requires hour < 24 && millisecond <= 3_599_999
    ensures var t := OccurredAt(start, hour, millisecond);
            && IsInstant(t) && t.microsecond % 1_000 == 0
            && MillisecondOfHour(t) == millisecond
  {
  }

  /** The draw never has an empty range: some hour is allowed, and each allowed hour has room. */
  lemma SomethingCanBeDrawn(start: Instant, reference: Instant)
    requires IsInstant(start) && IsInstant(reference) && Micros(start) <= Micros(reference)
    ensures start.hour in AllowedHours(start, reference, 24)
    ensures forall hour: nat :: hour in AllowedHours(start, reference, 24) ==>
              MillisecondBounds(start, reference, hour).0 <= MillisecondBounds(start, reference, hour).1 <= 3_599_999
  {
    AllowedHoursMeaning(start, reference, 24);
    OrderWithinDay(reference, start);
  }

  ghost predicate InWindow(start: Instant, reference: Instant, t: Instant) {
    && IsInstant(t) && t.day == start.day && t.microsecond % 1_000 == 0
    && Micros(TruncatedToMillisecond(start)) <= Micros(t) <= Micros(reference)
  }

  lemma DrawIsInWindow(start: Instant, reference: Instant, hour: nat, millisecond: nat)
    requires IsInstant(start) && IsInstant(reference) && Micros(start) <= Micros(reference)
    requires hour < 24 && IsAllowedHour(start, reference, hour)
    requires MillisecondBounds(start, reference, hour).0 <= millisecond <= MillisecondBounds(start, reference, hour).1
    ensures InWindow(start, reference, OccurredAt(start, hour, millisecond))
  {
    var t := OccurredAt(start, hour, millisecond);
    assert millisecond <= 3_599_999;
    RebuiltFromDigits(start, hour, millisecond);
    OrderWithinDay(start, t);
    OrderWithinDay(t, reference);
    OrderWithinDay(start, reference);
    OrderWithinDay(reference, start);
  }

  lemma WindowIsDrawn(start: Instant, reference: Instant, t: Instant)
    requires IsInstant(start) && IsInstant(reference) && InWindow(start, reference, t)
    ensures IsAllowedHour(start, reference, t.hour)
    ensures MillisecondBounds(start, reference, t.hour).0 <= MillisecondOfHour(t)
            <= MillisecondBounds(start, reference, t.hour).1
    ensures t == OccurredAt(start, t.hour, MillisecondOfHour(t))
  {
    RebuiltFromDigits(start, t.hour, MillisecondOfHour(t));
    OrderWithinDay(t, TruncatedToMillisecond(start));
    OrderWithinDay(reference, t);
  }

  /**
    The drawable timestamps are exactly the whole milliseconds of the start date from the
    start (cut to milliseconds) up to the reference time.
  */
  lemma DrawableIff(start: Instant, reference: Instant, t: Instant)
    requires IsInstant(start) && IsInstant(reference) && Micros(start) <= Micros(reference)
    ensures Drawable(start, reference, t) <==> InWindow(start, reference, t)
  {
    AllowedHoursMeaning(start, reference, 24);
    if Drawable(start, reference, t) {
      var hour: nat, millisecond: nat :|
        && hour in AllowedHours(start, reference, 24)
        && MillisecondBounds(start, reference, hour).0 <= millisecond <= MillisecondBounds(start, reference, hour).1
        && t == OccurredAt(start, hour, millisecond);
      DrawIsInWindow(start, reference, hour, millisecond);
    }
    if InWindow(start, reference, t) {
      WindowIsDrawn(start, reference, t);
      assert t.hour in AllowedHours(start, reference, 24);
    }
  }

  /** Cutting to milliseconds moves back exactly the instants that are not whole milliseconds. */
  lemma CuttingMovesBack(start: Instant)
    requires IsInstant(start)
    ensures IsInstant(TruncatedToMillisecond(start)) && Micros(TruncatedToMillisecond(start)) <= Micros(start)
    ensures Micros(TruncatedToMillisecond(start)) == Micros(start) <==> start.microsecond % 1_000 == 0
    ensures TruncatedToMillisecond(start).microsecond % 1_000 == 0
  {
  }

  /** Events never precede the start time itself exactly when it falls on a whole millisecond. */
  lemma NeverBeforeStartIff(start: Instant, reference: Instant)
    requires IsInstant(start) && IsInstant(reference) && Micros(start) <= Micros(reference)
    ensures (forall t :: Drawable(start, reference, t) ==> Micros(start) <= Micros(t)) <==>
            start.microsecond % 1_000 == 0
  {
    var first := TruncatedToMillisecond(start);
    CuttingMovesBack(start);
    DrawableIff(start, reference, first);
    if start.microsecond % 1_000 == 0 {
      forall t | Drawable(start, reference, t) ensures Micros(start) <= Micros(t) {
        DrawableIff(start, reference, t);
      }
    } else {
      assert Drawable(start, reference, first) && Micros(first) < Micros(start);
    }
  }
}

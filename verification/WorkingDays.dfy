/** Working-day arithmetic of the date lens: Monday to Friday, in UTC, without holidays. */
module WorkingDays {
  datatype Unit = Minutes | Hours | Days | Weeks | Months | Years

  /** A length in working days: 5 a week, 22 a month, 260 a year; anything below a day is one day. */
  function LengthToWorkingDays(value: int, unit: Unit): int {
    match unit
    case Minutes | Hours => if value > 0 then 1 else if value < 0 then -1 else 0
    case Days => value
    case Weeks => value * 5
    case Months => value * 22
    case Years => value * 260
  }

  /** The day a Unix time falls on; day 0, the first of January 1970, was a Thursday. */
  function Day(t: int): int {
    t / 86400
  }

  /** Sunday is 0. */
  function Weekday(day: int): int {
    (day + 4) % 7
  }

  predicate IsWeekend(day: int) {
    Weekday(day) == 0 || Weekday(day) == 6
  }

  /** Day 0 was a Thursday and day 2 a Saturday; weekends are every seven days from there, both ways. */
  lemma WeekendsOfTheCalendar(day: int)
    ensures Weekday(0) == 4 && Weekday(2) == 6 && Weekday(3) == 0
    ensures IsWeekend(day) <==> exists weeks: int :: day == 2 + 7 * weeks || day == 3 + 7 * weeks
  {
    if IsWeekend(day) {
      var weeks := (day - 2) / 7;
      assert day == 2 + 7 * weeks || day == 3 + 7 * weeks;
    }
  }

  lemma WeekendsByRemainder(day: int)
    ensures IsWeekend(day) <==> day % 7 == 2 || day % 7 == 3
    ensures Weekday(day) == 1 <==> day % 7 == 4
    ensures Weekday(day) == 5 <==> day % 7 == 1
  {}

  function Works(day: int): nat {
    if IsWeekend(day) then 0 else 1
  }

  /** The day k days on, in the direction of the walk. */
  function Along(day: int, forward: bool, k: int): int {
    if forward then day + k else day - k
  }

  function StepDay(t: int, forward: bool): int {
    if forward then t + 86400 else t - 86400
  }

  lemma StepIsOneDay(t: int, forward: bool)
    ensures Day(StepDay(t, forward)) == Along(Day(t), forward, 1)
    ensures StepDay(t, forward) % 86400 == t % 86400
  {}

  /** Working days among the first n days of a walk. */
  function WorkDays(day: int, forward: bool, n: nat): nat {
    if n == 0 then 0
    else WorkDays(day, forward, n - 1) + Works(Along(day, forward, n - 1))
  }

  /** How many days of a weekend are left before the next working day. */
  function ToWorkDay(day: int, forward: bool): (k: nat)
    ensures k <= 2 && !IsWeekend(Along(day, forward, k)) && forall j :: 0 <= j < k ==> IsWeekend(Along(day, forward, j))
  {
    if !IsWeekend(day) then 0
    else if !IsWeekend(Along(day, forward, 1)) then 1
    else 2
  }

  /** The base snapped to the nearest working day in the direction. */
  function Snapped(day: int, forward: bool): int {
    Along(day, forward, ToWorkDay(day, forward))
  }

  /** A walk of n days from a working day: it ends on one and counts both ends. */
  ghost predicate Walk(start: int, forward: bool, days: nat, n: nat) {
    n > 0 && !IsWeekend(start) && !IsWeekend(Along(start, forward, n - 1)) && WorkDays(start, forward, n) == days
  }

  /**
   * Snap, then step until the remaining working days are used up. The result is the same time of day,
   * n - 1 days along from the snapped base.
   */
  method WalkWorkingDaysInclusive(base: int, days: int, forward: bool) returns (t: int, ghost n: nat)
    ensures t % 86400 == base % 86400
    ensures days <= 0 ==> t == base
    ensures days > 0 ==> n > 0 && Walk(Snapped(Day(base), forward), forward, days, n)
                         && Day(t) == Along(Snapped(Day(base), forward), forward, n - 1)
    ensures days > 0 ==> Day(t) % 7 != 2 && Day(t) % 7 != 3   // neither a Saturday nor a Sunday
  {
    n := 0;
    if days <= 0 {
      return base, 0;
    }
    var cur := base;
    ghost var skipped := 0;
    while IsWeekend(Day(cur))
      invariant skipped <= ToWorkDay(Day(base), forward)
      invariant Day(cur) == Along(Day(base), forward, skipped) && cur % 86400 == base % 86400
      decreases ToWorkDay(Day(base), forward) - skipped
    {
      StepIsOneDay(cur, forward);
      cur, skipped := StepDay(cur, forward), skipped + 1;
    }
    ghost var start := Snapped(Day(base), forward);
    var remaining := days - 1;
    n := 1;
    assert WorkDays(start, forward, 1) == WorkDays(start, forward, 0) + 1;
    while remaining > 0
      invariant 0 <= remaining && n > 0 && Day(cur) == Along(start, forward, n - 1) && cur % 86400 == base % 86400
      invariant WorkDays(start, forward, n) == days - remaining
      invariant remaining == 0 ==> !IsWeekend(Day(cur))
      decreases remaining, ToWorkDay(Along(Day(cur), forward, 1), forward)
    {
      StepIsOneDay(cur, forward);
      cur, n := StepDay(cur, forward), n + 1;
      if !IsWeekend(Day(cur)) {
        remaining := remaining - 1;
      }
    }
    t := cur;
    WeekendsByRemainder(Day(t));
  }

  // ---- what a walk is --------------------------------------------------------------------------

  lemma {:induction false} WorkDaysGrow(day: int, forward: bool, m: nat, n: nat)
    requires m <= n
    ensures WorkDays(day, forward, m) <= WorkDays(day, forward, n)
    decreases n
  {
    if m < n { WorkDaysGrow(day, forward, m, n - 1); }
  }

  /** There is only one walk of so many working days. */
  lemma WalkUnique(start: int, forward: bool, days: nat, m: nat, n: nat)
    requires Walk(start, forward, days, m) && Walk(start, forward, days, n)
    ensures m == n
  {
    if m < n { WorkDaysGrow(start, forward, m, n - 1); }
    if n < m { WorkDaysGrow(start, forward, n, m - 1); }
  }

  lemma {:induction false} FirstDayApart(day: int, forward: bool, n: nat)
    requires n > 0
    ensures WorkDays(day, forward, n) ==
            Works(day) + WorkDays(Along(day, forward, 1), forward, n - 1)
    decreases n
  {
    if n > 1 {
      FirstDayApart(day, forward, n - 1);
      assert Along(day, forward, n - 1) == Along(Along(day, forward, 1), forward, n - 2);
    }
  }

  /** The same days counted from the other end. */
  lemma {:induction false} CountedBackwards(day: int, forward: bool, n: nat)
    requires n > 0
    ensures WorkDays(Along(day, forward, n - 1), !forward, n) == WorkDays(day, forward, n)
    decreases n
  {
    var last := Along(day, forward, n - 1);
    if n > 1 {
      CountedBackwards(day, forward, n - 1);
      FirstDayApart(last, !forward, n);
      assert Along(last, !forward, 1) == Along(day, forward, n - 2);
    }
  }

  /** Walking back as many working days returns to the snapped base, at the same time of day. */
  lemma WalkBackReturns(base: int, days: nat, forward: bool, there: int, n: nat, back: int, m: nat)
    requires days > 0 && n > 0 && m > 0
    requires there % 86400 == base % 86400 && back % 86400 == there % 86400
    requires Walk(Snapped(Day(base), forward), forward, days, n)
    requires Day(there) == Along(Snapped(Day(base), forward), forward, n - 1)
    requires Walk(Snapped(Day(there), !forward), !forward, days, m)
    requires Day(back) == Along(Snapped(Day(there), !forward), !forward, m - 1)
    ensures Day(back) == Snapped(Day(base), forward)
    ensures back == Snapped(Day(base), forward) * 86400 + base % 86400
  {
    var start := Snapped(Day(base), forward);
    assert Snapped(Day(there), !forward) == Day(there);
    CountedBackwards(start, forward, n);
    assert Along(Day(there), !forward, n - 1) == start;
    WalkUnique(Day(there), !forward, days, m, n);
    TimeOfDay(back);
  }

  lemma TimeOfDay(t: int)
    ensures t == Day(t) * 86400 + t % 86400
  {}

  lemma NextWeekday(day: int)
    ensures Weekday(day + 1) == if Weekday(day) == 6 then 0 else Weekday(day) + 1
    ensures Works(day) == if Weekday(day) == 0 || Weekday(day) == 6 then 0 else 1
    ensures 0 <= Weekday(day) <= 6
  {}

  /** Any seven days in a row hold five working days. */
  lemma SevenDays(day: int)
    ensures Works(day) + Works(day + 1) + Works(day + 2) + Works(day + 3) + Works(day + 4) + Works(day + 5) + Works(day + 6) == 5
  {
    hide Weekday, Works;
    NextWeekday(day);
    NextWeekday(day + 1);
    NextWeekday(day + 2);
    NextWeekday(day + 3);
    NextWeekday(day + 4);
    NextWeekday(day + 5);
    NextWeekday(day + 6);
  }

  lemma OneMore(day: int, forward: bool, n: nat)
    ensures WorkDays(day, forward, n + 1) == WorkDays(day, forward, n) + Works(Along(day, forward, n))
  {}

  lemma AWeek(day: int, forward: bool, n: nat)
    ensures WorkDays(day, forward, n + 7) == WorkDays(day, forward, n) + 5
  {
    hide WorkDays, Works;
    OneMore(day, forward, n);
    OneMore(day, forward, n + 1);
    OneMore(day, forward, n + 2);
    OneMore(day, forward, n + 3);
    OneMore(day, forward, n + 4);
    OneMore(day, forward, n + 5);
    OneMore(day, forward, n + 6);
    SevenDays(if forward then day + n else day - n - 6);
  }

  lemma {:induction false} WholeWeeks(day: int, forward: bool, q: nat, n: nat)
    ensures WorkDays(day, forward, 7 * q + n) == 5 * q + WorkDays(day, forward, n)
    decreases q
  {
    if q > 0 {
      WholeWeeks(day, forward, q - 1, n);
      AWeek(day, forward, 7 * (q - 1) + n);
    }
  }

  /** A walk of 5q + 1 working days from a working day ends 7q calendar days away. */
  lemma WeeksAndADay(base: int, q: nat, forward: bool, t: int, n: nat)
    requires !IsWeekend(Day(base)) && n > 0 && Walk(Snapped(Day(base), forward), forward, 5 * q + 1, n)
    requires t % 86400 == base % 86400 && Day(t) == Along(Snapped(Day(base), forward), forward, n - 1)
    ensures t == Along(base, forward, 7 * q * 86400)
  {
    WholeWeeks(Day(base), forward, q, 1);
    assert WorkDays(Day(base), forward, 1) == WorkDays(Day(base), forward, 0) + 1;
    SameWeekday(Day(base), forward, q);
    WalkUnique(Day(base), forward, 5 * q + 1, n, 7 * q + 1);
    TimeOfDay(t);
    TimeOfDay(base);
  }

  lemma SameWeekday(day: int, forward: bool, q: nat)
    ensures Weekday(Along(day, forward, 7 * q)) == Weekday(day)
  {}

  /** A length of q weeks that starts on a Monday ends on the Friday of the q-th week. */
  lemma WeeksEndOnFriday(base: int, q: nat, t: int, n: nat)
    requires q > 0 && Weekday(Day(base)) == 1 && n > 0
    requires Walk(Snapped(Day(base), true), true, LengthToWorkingDays(q, Weeks), n)
    requires Day(t) == Along(Snapped(Day(base), true), true, n - 1)
    ensures Weekday(Day(t)) == 5 && Day(t) == Day(base) + 7 * q - 3
  {
    hide Weekday, Works, WorkDays, Snapped;
    var d := Day(base);
    var m := 7 * q - 2;
    WholeWeeks(d, true, q, 0);
    SameWeekday(d, true, q);
    NextWeekday(d);
    NextWeekday(d + m - 1);
    NextWeekday(d + m);
    NextWeekday(d + m + 1);
    OneMore(d, true, m);
    OneMore(d, true, m + 1);
    NothingWalked(d);
    WalkUnique(d, true, 5 * q, n, m);
  }

  lemma NothingWalked(day: int)
    ensures WorkDays(day, true, 0) == 0 && (!IsWeekend(day) ==> Snapped(day, true) == day)
  {}

  /** From a Monday, w working days end on working day (w - 1) % 5 of week (w - 1) / 5. */
  lemma EndFromMonday(base: int, w: nat, t: int, n: nat)
    requires w > 0 && Day(base) % 7 == 4 && n > 0
    requires Walk(Snapped(Day(base), true), true, w, n) && Day(t) == Along(Snapped(Day(base), true), true, n - 1)
    ensures Day(t) == Day(base) + 7 * ((w - 1) / 5) + (w - 1) % 5
  {
    hide Weekday, Works, WorkDays, Snapped;
    var d, q, r := Day(base), (w - 1) / 5, (w - 1) % 5;
    WeekendsByRemainder(d);
    NothingWalked(d);
    WholeWeeks(d, true, q, r + 1);
    FirstDays(d, r + 1);
    SameWeekday(d + r, true, q);
    WalkUnique(d, true, w, n, 7 * q + r + 1);
  }

  /** The first days from a Monday are working days. */
  lemma FirstDays(d: int, n: nat)
    requires d % 7 == 4 && 0 < n <= 5
    ensures WorkDays(d, true, n) == n && !IsWeekend(d) && !IsWeekend(d + n - 1)
  {
    hide WorkDays;
    NothingWalked(d);
    OneMore(d, true, 0);
    OneMore(d, true, 1);
    OneMore(d, true, 2);
    OneMore(d, true, 3);
    OneMore(d, true, 4);
  }

  /** What a length means for the walk: the number of weekdays from the snapped base to its end, both counted. */
  lemma LengthWalked(base: int, value: int, unit: Unit, days: nat, n: nat)
    requires value != 0 && days == (if value > 0 then LengthToWorkingDays(value, unit) else -LengthToWorkingDays(value, unit))
    requires Walk(Snapped(Day(base), value > 0), value > 0, days, n)
    ensures var size := if value > 0 then value else -value;
            WorkDays(Snapped(Day(base), value > 0), value > 0, n) ==
              match unit
              case Minutes | Hours => 1
              case Days => size
              case Weeks => 5 * size
              case Months => 22 * size
              case Years => 260 * size
  {}

  /** A length below a day stays on its day; a year of working days from a Monday ends on the Friday of week 52. */
  lemma ShortAndLongLengths(base: int, value: nat, t: int, n: nat)
    requires value > 0 && Day(base) % 7 == 4 && n > 0 && Day(t) == Along(Snapped(Day(base), true), true, n - 1)
    ensures Walk(Snapped(Day(base), true), true, LengthToWorkingDays(value, Hours), n) ==> Day(t) == Day(base)
    ensures Walk(Snapped(Day(base), true), true, LengthToWorkingDays(value, Minutes), n) ==> Day(t) == Day(base)
    ensures Walk(Snapped(Day(base), true), true, LengthToWorkingDays(value, Months), n) ==>
              Day(t) == Day(base) + 7 * ((22 * value - 1) / 5) + (22 * value - 1) % 5
    ensures Walk(Snapped(Day(base), true), true, LengthToWorkingDays(value, Years), n) ==>
              Day(t) == Day(base) + 7 * 52 * value - 3
  {
    hide Walk, Snapped, Along;
    if Walk(Snapped(Day(base), true), true, 1, n) { EndFromMonday(base, 1, t, n); }
    if Walk(Snapped(Day(base), true), true, 22 * value, n) { EndFromMonday(base, 22 * value, t, n); }
    if Walk(Snapped(Day(base), true), true, 260 * value, n) { EndFromMonday(base, 260 * value, t, n); }
  }
}

/** The instants that can be written, told in years. */
module Calendar {
  import opened TargetPb

  /** The Gregorian rule. */
  predicate Leap(year: nat) {
    year % 4 == 0 && (year % 100 != 0 || year % 400 == 0)
  }

  /** The days from the first of January of the year 1 to that of the given year. */
  function DaysBefore(year: nat): nat {
    if year <= 1 then 0 else DaysBefore(year - 1) + (if Leap(year - 1) then 366 else 365)
  }

  lemma {:induction false} DaysCounted(year: nat)
    requires year >= 1
    ensures DaysBefore(year) == (year - 1) * 365 + (year - 1) / 4 - (year - 1) / 100 + (year - 1) / 400
  {
    if year > 1 {
      DaysCounted(year - 1);
      var y := year - 1;
      Fourth(y);
      Hundredth(y);
      FourHundredth(y);
    }
  }

  lemma Fourth(y: nat)
    requires y >= 1
    ensures y / 4 == (y - 1) / 4 + (if y % 4 == 0 then 1 else 0)
  {
  }

  lemma Hundredth(y: nat)
    requires y >= 1
    ensures y / 100 == (y - 1) / 100 + (if y % 100 == 0 then 1 else 0)
    ensures y % 100 == 0 ==> y % 4 == 0
  {
  }

  lemma FourHundredth(y: nat)
    requires y >= 1
    ensures y / 400 == (y - 1) / 400 + (if y % 400 == 0 then 1 else 0)
    ensures y % 400 == 0 ==> y % 100 == 0
  {
  }

  /** Valid are the instants from the first of January of the year 1 to the last of December of the year 9999, counted
      in seconds from 1970, with a fraction of up to 999999999 nanoseconds. */
  lemma ValidYears(t: Time)
    ensures ValidTime(t)
       <==> 86400 * (DaysBefore(1) - DaysBefore(1970)) <= t.seconds < 86400 * (DaysBefore(10000) - DaysBefore(1970))
            && 0 <= t.nanos <= 999_999_999
  {
    hide DaysBefore;
    DaysCounted(1);
    DaysCounted(1970);
    DaysCounted(10000);
  }
}

/**
 * The `Date` object of the scripting API: one mutable calendar date with
 * an ISO 8601 text form and year/month/day properties whose setters only
 * take effect when the result is a real calendar date.
 * The clock is not modelled: "today" is passed in.
 */
module ApiDate {
  import opened Wrappers
  import opened Ints
  import opened Text
  import opened Dates
  import ApiErrors

  /** `NaiveDate::with_year` / `with_month` / `with_day`: `None` when the result is not a valid date. */
  function WithFields(year: int, month: int, day: int): (r: Option<Date>)
    ensures r.Some? <==> Dates.Valid(Date(year, month, day))
    ensures r.Some? ==> r.value == Date(year, month, day)
  {
    var n := Date(year, month, day);
    if Dates.Valid(n) then Some(n) else None
  }

  class DateObject {
    var date: Date

    ghost predicate Valid()
      reads this
    {
      Dates.Valid(date)
    }

    /** `Date::new`: today's date. */
    constructor(today: Date)
      requires Dates.Valid(today)
      ensures Valid() && date == today
    {
      date := today;
    }

    /** `get_iso`: the `%Y-%m-%d` text, which `set_iso` reads back as the same date. */
    function GetIso(): (r: String)
      reads this
      requires Valid()
      ensures ParseIso(r) == Some(date)
    {
      ParseFormatIso(date);
      FormatIso(date)
    }

    /** `set_iso`: a parse failure is reported as `Logic` and keeps the stored date. */
    method SetIso(s: String) returns (r: Result<(), ApiErrors.Error>)
      requires Valid()
      modifies this
      ensures Valid()
      ensures ParseIso(s).Some? ==> r.Ok? && date == ParseIso(s).value
      ensures ParseIso(s).None? ==> r == Err(ApiErrors.Logic) && date == old(date)
    {
      match ParseIso(s)
      case Some(d) =>
        date := d;
        r := Ok(());
      case None =>
        r := Err(ApiErrors.Logic);
    }

    function GetYear(): i64
      reads this
      requires Valid()
    {
      date.year
    }

    function GetMonth(): i64
      reads this
      requires Valid()
    {
      date.month
    }

    function GetDay(): i64
      reads this
      requires Valid()
    {
      date.day
    }

    /** `set_year`: the year is cast to `i32`; an invalid result (29 February, out of range) changes nothing. */
    method SetYear(year: i64)
      requires Valid()
      modifies this
      ensures Valid()
      ensures var n := Date(AsI32(year), old(date).month, old(date).day);
        date == if Dates.Valid(n) then n else old(date)
      ensures -TWO_31 <= year < TWO_31 && Dates.Valid(Date(year, old(date).month, old(date).day)) ==> GetYear() == year
    {
      match WithFields(AsI32(year), date.month, date.day)
      case Some(n) => date := n;
      case None =>
    }

    /** `set_month`: the month is cast to `u32`; an invalid result changes nothing. */
    method SetMonth(month: i64)
      requires Valid()
      modifies this
      ensures Valid()
      ensures var n := Date(old(date).year, AsU32(month), old(date).day);
        date == if Dates.Valid(n) then n else old(date)
      ensures Dates.Valid(Date(old(date).year, month, old(date).day)) ==> GetMonth() == month
    {
      match WithFields(date.year, AsU32(month), date.day)
      case Some(n) => date := n;
      case None =>
    }

    /** `set_day`: the day is cast to `u32`; an invalid result changes nothing. */
    method SetDay(day: i64)
      requires Valid()
      modifies this
      ensures Valid()
      ensures var n := Date(old(date).year, old(date).month, AsU32(day));
        date == if Dates.Valid(n) then n else old(date)
      ensures Dates.Valid(Date(old(date).year, old(date).month, day)) ==> GetDay() == day
    {
      match WithFields(date.year, date.month, AsU32(day))
      case Some(n) => date := n;
      case None =>
    }

    /** `days_until_today`: the signed number of days from the stored date to `today`. */
    function DaysUntilToday(today: Date): (r: int)
      reads this
      requires Valid() && Dates.Valid(today)
      ensures AddDays(date, r) == Some(today)
      ensures r == 0 <==> today == date
      ensures r > 0 <==> DayNumber(date) < DayNumber(today)
    {
      var r := DayNumber(today) - DayNumber(date);
      DayNumberRange(today);
      AddDaysNumber(date, r);
      DayNumberInjective(AddDays(date, r).value, today);
      r
    }
  }
}

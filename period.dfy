/** The end date of a warranty: the buying date moved on by the period,
    minus one day, as the save handler and the CSV import compute it with
    the `Date` setters. */
module Period {
  import opened Wrappers
  import opened Text
  import opened Calendar

  /** Which setter the period unit selects. */
  datatype Step = YearStep | MonthStep | DayStep | NoStep

  /** The form compares the unit with the three option values exactly; any
      other value leaves the end date at the buying date. */
  function FormStep(unit: string): Step
  {
    if unit == "Years" then YearStep
    else if unit == "Months" then MonthStep
    else if unit == "Days" then DayStep
    else NoStep
  }

  /** The import lower-cases the unit and looks for "year", "month" and
      "day" in turn; anything else counts as years. */
  function ImportStep(unit: string): (s: Step)
    ensures s != NoStep
  {
    var u := Lower(unit);
    if Contains(u, "year") then YearStep
    else if Contains(u, "month") then MonthStep
    else if Contains(u, "day") then DayStep
    else YearStep
  }

  /** The import reads the three form units as the form does. */
  lemma ImportStepAgrees(unit: string)
    requires unit in {"Years", "Months", "Days"}
    ensures ImportStep(unit) == FormStep(unit)
  {
    if unit == "Years" {
      YearsUnit();
    } else if unit == "Months" {
      MonthsUnit();
    } else {
      DaysUnit();
    }
  }

  lemma YearsUnit()
    ensures ImportStep("Years") == YearStep
  {
    assert Lower("Years") == "years";
    ContainsPrefix("year", "s");
  }

  lemma MonthsUnit()
    ensures ImportStep("Months") == MonthStep
  {
    assert Lower("Months") == "months";
    assert !Contains("months", "year");
    ContainsPrefix("month", "s");
  }

  lemma DaysUnit()
    ensures ImportStep("Days") == DayStep
  {
    assert Lower("Days") == "days";
    assert !Contains("days", "year");
    assert !Contains("days", "month");
    ContainsPrefix("day", "s");
  }

  /** The end date before any clamping: years or months added, then one
      day taken off; or `periodValue - 1` days added. An invalid date stays
      invalid through every setter. */
  ghost function Advance(buy: int, periodValue: int, step: Step): Option<int>
  {
    match step
    case YearStep =>
      var e := AddYears(buy, periodValue);
      if e.Some? then AddDays(e.value, -1) else None
    case MonthStep =>
      var e := AddMonths(buy, periodValue);
      if e.Some? then AddDays(e.value, -1) else None
    case DayStep => AddDays(buy, periodValue - 1)
    case NoStep => Some(buy)
  }

  /** Computes the end date before clamping with the `Date` setters. */
  method ComputeAdvance(buy: int, periodValue: int, step: Step) returns (end: Option<int>)
    ensures end == Advance(buy, periodValue, step)
  {
    match step
    case YearStep =>
      end := SetFullYear(buy, periodValue);
      if end.Some? {
        end := SetDate(end.value, -1);
      }
    case MonthStep =>
      end := SetMonth(buy, periodValue);
      if end.Some? {
        end := SetDate(end.value, -1);
      }
    case DayStep =>
      end := SetDate(buy, periodValue - 1);
    case NoStep =>
      end := Some(buy);
  }

  /** "Ensure end date is not before buy date": a valid end date earlier
      than the buying date is replaced by the buying date; an invalid one
      stays invalid. */
  function Clamp(end: Option<int>, buy: int): (r: Option<int>)
    ensures r.Some? <==> end.Some?
    ensures r.Some? ==> r.value >= buy
    ensures end.Some? && end.value >= buy ==> r == end
  {
    if end.Some? && end.value < buy then Some(buy) else end
  }

  /** The end date the save handler stores. */
  ghost function FormEndDate(buy: int, periodValue: int, unit: string): Option<int>
  {
    Clamp(Advance(buy, periodValue, FormStep(unit)), buy)
  }

  /** The end date the CSV import stores: no clamp. */
  ghost function ImportEndDate(buy: int, periodValue: int, unit: string): Option<int>
  {
    Advance(buy, periodValue, ImportStep(unit))
  }

  /** The form's end date is never earlier than the buying date. */
  lemma FormEndNotEarlier(buy: int, periodValue: int, unit: string)
    ensures FormEndDate(buy, periodValue, unit).Some? ==> FormEndDate(buy, periodValue, unit).value >= buy
  {
  }

  /** With a period of at least one, every unit ends on or after the
      buying date. */
  lemma AdvanceNotEarlier(buy: int, periodValue: int, step: Step)
    requires periodValue >= 1
    ensures Advance(buy, periodValue, step).Some? ==> Advance(buy, periodValue, step).value >= buy
  {
    match step
    case YearStep =>
      AddYearsLater(buy, periodValue);
      var e := AddYears(buy, periodValue);
      if e.Some? {
        AddDaysShifts(e.value, -1);
      }
    case MonthStep =>
      AddMonthsLater(buy, periodValue);
      var e := AddMonths(buy, periodValue);
      if e.Some? {
        AddDaysShifts(e.value, -1);
      }
    case DayStep =>
      AddDaysShifts(buy, periodValue - 1);
    case NoStep =>
  }

  /** For the periods the form accepts the clamp never fires: the stored
      end date is the computed one. */
  lemma FormClampInactive(buy: int, periodValue: int, unit: string)
    requires periodValue >= 1
    ensures FormEndDate(buy, periodValue, unit) == Advance(buy, periodValue, FormStep(unit))
  {
    AdvanceNotEarlier(buy, periodValue, FormStep(unit));
  }

  /** A period in days ends `periodValue - 1` days after the buying date:
      the buying day counts as the first day. */
  lemma FormEndDays(buy: int, periodValue: int)
    requires periodValue >= 1
    ensures FormEndDate(buy, periodValue, "Days") == Clip(buy + (periodValue - 1) * DayMs)
  {
    FormClampInactive(buy, periodValue, "Days");
    AddDaysShifts(buy, periodValue - 1);
  }

  /** A one-year warranty bought on 1 January 2024 ends on 31 December
      2024 (day numbers 19723 and 20088). */
  lemma OneYearExample()
    ensures FormEndDate(19723 * DayMs, 1, "Years") == Some(20088 * DayMs)
  {
    var buy := 19723 * DayMs;
    DateOfIs(Civil(2024, 1, 1), 19723);
    assert DaysFromCivil(2025, 1, 1) == 20089;
    AddDaysShifts(20089 * DayMs, -1);
    FormClampInactive(buy, 1, "Years");
  }

  /** A one-month warranty bought on 31 January 2024 runs into the
      overflow of `setMonth`: 31 February is 2 March, so it ends on 1 March
      2024 (day numbers 19753 and 19783). */
  lemma MonthOverflowExample()
    ensures FormEndDate(19753 * DayMs, 1, "Months") == Some(19783 * DayMs)
  {
    var buy := 19753 * DayMs;
    DateOfIs(Civil(2024, 1, 31), 19753);
    assert DayNumber(2024, 1, 31) == 19784;
    AddDaysShifts(19784 * DayMs, -1);
    FormClampInactive(buy, 1, "Months");
  }

  /** The import does not clamp: a zero period, in any unit, ends the day
      before a valid buying date. */
  lemma ImportZeroPeriod(buy: int, unit: string)
    requires InRange(buy)
    ensures ImportEndDate(buy, 0, unit) == Clip(buy - DayMs)
  {
    AddDaysShifts(buy, -1);
    if ImportStep(unit) != DayStep {
      AddNothing(buy);
    }
  }
}

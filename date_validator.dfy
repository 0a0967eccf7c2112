/**
 * The date validation the packer delegates to: a validation method chosen per
 * packer instance, the legal ranges of year, month and day under the proleptic
 * Gregorian calendar, and the three ways a failed check is reported.
 *
 * DateValidator.java is not part of this model; its rules are taken from the
 * valid and invalid dates the packer's tests list.
 */
module DateValidator {
  import opened JavaInt

  /** How a packer reacts to an illegal field. */
  datatype ValidationMethod = Unvalidated | InvalidateResult | ThrowException
  {
    /** The Java enum ordinal, used to index the instance table. */
    function Ordinal(): (i: nat)
      ensures i < 3
      ensures i == 0 <==> this == Unvalidated
    {
      match this
      case Unvalidated => 0
      case InvalidateResult => 1
      case ThrowException => 2
    }
  }

  /** The method with a given ordinal; the inverse of `Ordinal`. */
  function ValidationMethodByOrdinal(i: nat): (vm: ValidationMethod)
    requires i < 3
    ensures vm.Ordinal() == i
  {
    if i == 0 then Unvalidated else if i == 1 then InvalidateResult else ThrowException
  }

  /** The date field a failed check names. */
  datatype DateField = Year | Month | Day

  /**
   * What a validating call does: return a Java `int`, or throw a
   * `DateTimeException` naming the offending field and its value.
   */
  datatype Outcome = Returned(value: Int32) | Thrown(field: DateField, fieldValue: Int32)

  /** The value returned for an illegal field under `InvalidateResult`. */
  const INVALID: Int32 := -1

  const YEAR_MIN: int := 1
  const YEAR_MAX: int := 9999

  /** The Gregorian rule: every fourth year, except centuries not divisible by 400. */
  predicate IsLeapYear(year: int)
  {
    year % 4 == 0 && (year % 100 != 0 || year % 400 == 0)
  }

  function DaysInMonth(year: int, month: int): (n: int)
    requires 1 <= month <= 12
    ensures 28 <= n <= 31
    ensures month == 2 ==> (n == 29 <==> IsLeapYear(year)) && (n == 28 <==> !IsLeapYear(year))
    ensures n == 30 <==> month == 4 || month == 6 || month == 9 || month == 11
    ensures n == 31 <==> month != 2 && n != 30
  {
    if month == 2 then (if IsLeapYear(year) then 29 else 28)
    else if month == 4 || month == 6 || month == 9 || month == 11 then 30
    else 31
  }

  predicate ValidYear(year: int)
  {
    YEAR_MIN <= year <= YEAR_MAX
  }

  predicate ValidMonth(month: int)
  {
    1 <= month <= 12
  }

  /** A legal calendar date; a day of -1 (or any value below 1) is not legal. */
  predicate ValidDate(year: int, month: int, day: int)
  {
    ValidYear(year) && ValidMonth(month) && 1 <= day <= DaysInMonth(year, month)
  }

  /** The field a whole-date check reports: the year first, then the month, then the day. */
  function FirstInvalidField(year: int, month: int, day: int): (f: DateField)
    requires !ValidDate(year, month, day)
    ensures f == Year <==> !ValidYear(year)
    ensures f == Month <==> ValidYear(year) && !ValidMonth(month)
    ensures f == Day ==> ValidYear(year) && ValidMonth(month) && !(1 <= day <= DaysInMonth(year, month))
  {
    if !ValidYear(year) then Year else if !ValidMonth(month) then Month else Day
  }

  /** The value of the field `f` among year, month and day. */
  function FieldValue(f: DateField, year: Int32, month: Int32, day: Int32): Int32
  {
    match f
    case Year => year
    case Month => month
    case Day => day
  }

  /** How a validating method reports the illegal `value` of `field`. */
  function Reject(vm: ValidationMethod, field: DateField, value: Int32): (r: Outcome)
    requires vm != Unvalidated
    ensures vm == InvalidateResult ==> r == Returned(INVALID)
    ensures vm == ThrowException ==> r.Thrown? && r.field == field && r.fieldValue == value
  {
    if vm == InvalidateResult then Returned(INVALID) else Thrown(field, value)
  }

  /** Checks a year; an unvalidated check passes every value through. */
  function ValidateYear(vm: ValidationMethod, year: Int32): (r: Outcome)
    ensures vm == Unvalidated || ValidYear(year) ==> r == Returned(year)
    ensures vm != Unvalidated && !ValidYear(year) ==> r == Reject(vm, Year, year)
  {
    if vm == Unvalidated || ValidYear(year) then Returned(year) else Reject(vm, Year, year)
  }

  /** Checks a month; an unvalidated check passes every value through. */
  function ValidateMonth(vm: ValidationMethod, month: Int32): (r: Outcome)
    ensures vm == Unvalidated || ValidMonth(month) ==> r == Returned(month)
    ensures vm != Unvalidated && !ValidMonth(month) ==> r == Reject(vm, Month, month)
  {
    if vm == Unvalidated || ValidMonth(month) then Returned(month) else Reject(vm, Month, month)
  }

  /**
   * Checks year, month and day together and returns the day; an unvalidated
   * check returns the day whatever the fields are.
   */
  function ValidateDay(vm: ValidationMethod, year: Int32, month: Int32, day: Int32): (r: Outcome)
    ensures vm == Unvalidated || ValidDate(year, month, day) ==> r == Returned(day)
    ensures vm != Unvalidated && !ValidDate(year, month, day) ==>
      var f := FirstInvalidField(year, month, day);
      r == Reject(vm, f, FieldValue(f, year, month, day))
    ensures vm == InvalidateResult ==> (r == Returned(INVALID) <==> !ValidDate(year, month, day))
  {
    if vm == Unvalidated || ValidDate(year, month, day) then Returned(day)
    else
      var f := FirstInvalidField(year, month, day);
      Reject(vm, f, FieldValue(f, year, month, day))
  }

  /** Every date the packer's tests list as valid is legal under these rules. */
  lemma LegalDateVectors()
    ensures ValidDate(2017, 1, 1) && ValidDate(2017, 1, 31) && ValidDate(2017, 2, 28)
    ensures ValidDate(2017, 3, 31) && ValidDate(2017, 4, 30) && ValidDate(2017, 5, 31)
    ensures ValidDate(2017, 6, 30) && ValidDate(2017, 7, 31) && ValidDate(2017, 8, 31)
    ensures ValidDate(2017, 9, 30) && ValidDate(2017, 10, 31) && ValidDate(2017, 11, 30)
    ensures ValidDate(2017, 12, 31) && ValidDate(2016, 2, 29) && ValidDate(2000, 2, 29)
    ensures ValidDate(1900, 2, 28) && ValidDate(1970, 1, 1) && ValidDate(1970, 1, 2)
    ensures ValidDate(1969, 12, 31) && ValidDate(1969, 12, 30) && ValidDate(1969, 4, 30)
    ensures ValidDate(1968, 2, 28) && ValidDate(1600, 2, 29) && ValidDate(4, 2, 29)
    ensures ValidDate(100, 2, 28) && ValidDate(400, 2, 29) && ValidDate(1, 1, 1)
    ensures ValidDate(9999, 12, 31)
  {
  }

  /**
   * Every (year, month, day) the packer's tests list as invalid is illegal
   * under these rules, including a day of -1.
   */
  lemma IllegalDateVectors()
    ensures !ValidDate(0, 1, 1) && !ValidDate(-1, 1, 1) && !ValidDate(10000, 1, 1)
    ensures !ValidDate(2017, 0, 1) && !ValidDate(2017, -1, 1) && !ValidDate(2017, 13, 1)
    ensures !ValidDate(2017, 1, 0) && !ValidDate(2017, 4, -1) && !ValidDate(2017, 1, 32)
    ensures !ValidDate(2017, 2, 29) && !ValidDate(2016, 2, 30) && !ValidDate(2000, 2, 30)
    ensures !ValidDate(1900, 2, 29) && !ValidDate(1900, 4, 31) && !ValidDate(1900, 6, 31)
    ensures !ValidDate(1900, 9, 31) && !ValidDate(1900, 11, 31)
  {
  }
}

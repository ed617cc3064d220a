/** Small arithmetic and string helpers of src/utils.c. */
module Utils {
  import opened Wrappers

  /** `max` (src/utils.c:22-24). */
  function Max(a: int, b: int): (r: int)
    ensures r >= a && r >= b
    ensures r == a || r == b
  {
    if a > b then a else b
  }

  /** `minToHoursAnMinutes` (src/utils.c:49-52): the two out-pointers become out-parameters. */
  method MinToHoursAndMinutes(minIn: nat) returns (hoursOut: nat, minOut: nat)
    ensures minOut < 60
    ensures hoursOut * 60 + minOut == minIn
  {
    hoursOut := minIn / 60;
    minOut := minIn % 60;
  }

  predicate EndsWith(s: string, c: char) {
    |s| > 0 && s[|s| - 1] == c
  }

  /**
   * The line-ending trimming of `readLine` (src/utils.c:84-102): the buffer holds what fgets
   * read; one trailing '\n' is dropped, then one trailing '\r', by decrementing `len`.
   */
  method TrimLineEnding(buffer: string) returns (line: string)
    ensures |line| <= |buffer| && line == buffer[..|line|]
    ensures buffer[|line|..] in {"", "\n", "\r", "\r\n"}
    ensures EndsWith(buffer, '\n') && EndsWith(buffer[..|buffer| - 1], '\r') ==> |line| == |buffer| - 2
    ensures EndsWith(buffer, '\n') && !EndsWith(buffer[..|buffer| - 1], '\r') ==> |line| == |buffer| - 1
    ensures EndsWith(buffer, '\r') ==> |line| == |buffer| - 1
    ensures !EndsWith(buffer, '\n') && !EndsWith(buffer, '\r') ==> line == buffer
  {
    var len := |buffer|;
    if len > 0 && buffer[len - 1] == '\n' {
      len := len - 1;
    }
    if len > 0 && buffer[len - 1] == '\r' {
      len := len - 1;
    }
    line := buffer[..len];
    assert buffer[len..] == "" || buffer[len..] == "\n" || buffer[len..] == "\r" || buffer[len..] == "\r\n";
  }

  /** `copyString` (src/utils.c:135-143): NULL stays NULL, otherwise an equal string. */
  function CopyString(str: Option<string>): (r: Option<string>)
    ensures str.None? <==> r.None?
    ensures str.Some? ==> r.value == str.value
  {
    str
  }

  /** The fields `dateToEpoch` hands to mktime (a `struct tm`). */
  datatype Tm = Tm(sec: int, min: int, hour: int, mday: int, mon: int, year: int)

  /** The range guards of `dateToEpoch` (src/utils.c:277-281). */
  predicate DateInRange(year: int, month: int, day: int, hour: int, min: int) {
    && 1900 <= year <= 2037
    && 1 <= month <= 12
    && 1 <= day <= 31
    && 0 <= hour <= 23
    && 0 <= min <= 59
  }

  /**
   * `dateToEpoch` (src/utils.c:276-293). mktime depends on the time zone of the host, so it is a
   * parameter of the model.
   */
  function DateToEpoch(year: int, month: int, day: int, hour: int, min: int, mktime: Tm -> int): (r: int)
    ensures !DateInRange(year, month, day, hour, min) ==> r == 0
    ensures DateInRange(year, month, day, hour, min) ==>
      r == mktime(Tm(0, min, hour, day, month - 1, year - 1900))
  {
    if year < 1900 || year > 2037 then 0
    else if month < 1 || month > 12 then 0
    else if day < 1 || day > 31 then 0
    else if hour < 0 || hour > 23 then 0
    else if min < 0 || min > 59 then 0
    else mktime(Tm(0, min, hour, day, month - 1, year - 1900))
  }

  /** The Gregorian leap-year rule of `getDateFromUser` (src/utils.c:325). */
  predicate IsLeapYear(year: int) {
    (year % 4 == 0 && year % 100 != 0) || year % 400 == 0
  }

  /** The days-in-month table of `getDateFromUser` (src/utils.c:326-327), indexed by month - 1. */
  function DaysInMonth(year: int, month: int): (r: int)
    requires 1 <= month <= 12
    ensures 28 <= r <= 31
    ensures month == 2 ==> r == (if IsLeapYear(year) then 29 else 28)
    ensures month in {4, 6, 9, 11} ==> r == 30
    ensures month in {1, 3, 5, 7, 8, 10, 12} ==> r == 31
  {
    var febDays := 28 + (if IsLeapYear(year) then 1 else 0);
    var daysInMonth := [31, febDays, 31, 30, 31, 30, 31, 31, 30, 31, 30, 31];
    daysInMonth[month - 1]
  }

  function DaysInYear(year: int): int {
    DaysInMonth(year, 1) + DaysInMonth(year, 2) + DaysInMonth(year, 3) + DaysInMonth(year, 4)
    + DaysInMonth(year, 5) + DaysInMonth(year, 6) + DaysInMonth(year, 7) + DaysInMonth(year, 8)
    + DaysInMonth(year, 9) + DaysInMonth(year, 10) + DaysInMonth(year, 11) + DaysInMonth(year, 12)
  }

  /** The table adds up to a calendar year: 366 days exactly in leap years. */
  lemma DaysInYearTotal(year: int)
    ensures DaysInYear(year) == if IsLeapYear(year) then 366 else 365
  {
  }
}

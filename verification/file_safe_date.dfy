/**
  The file-safe date identifier: the `DDMMYY` string the scraper uses both as
  the deduplication key in its download record and as the stem of each saved
  puzzle's file name. The encoder works on already-parsed calendar fields
  (what `getDate`, `getMonth` and `getFullYear` return); `Decode` reads an
  identifier back, and the lemmas relate the two.
 */
module FileSafeDate {
  import opened JsString

  datatype Option<T> = None | Some(value: T)

  /** Local calendar fields of a date: day of month, zero-based month, full year. */
  datatype CalendarFields = CalendarFields(day: int, monthIndex: int, fullYear: int)

  /** The ranges a JavaScript `Date` reports for a valid date. */
  predicate Valid(f: CalendarFields) {
    1 <= f.day <= 31 && 0 <= f.monthIndex <= 11
  }

  /** The last two decimal digits of the year's magnitude: what `slice(-2)` keeps of a year of two or more digits. */
  function YearOfCentury(year: int): (y: int)
    ensures 0 <= y < 100
  {
    Abs(year) % 100
  }

  /** What an identifier decodes to: day, one-based month and two-digit year. */
  datatype DecodedDate = DecodedDate(day: int, month: int, yearOfCentury: int)

  /** The reference `DDMMYY` form: three two-digit numbers side by side. */
  function Canonical(day: int, month: int, yearOfCentury: int): (id: string)
    requires 0 <= day < 100 && 0 <= month < 100 && 0 <= yearOfCentury < 100
    ensures |id| == 6 && AllDigits(id)
    ensures PairValue(id[0], id[1]) == day && PairValue(id[2], id[3]) == month && PairValue(id[4], id[5]) == yearOfCentury
  {
    TwoDigits(day) + TwoDigits(month) + TwoDigits(yearOfCentury)
  }

  /** `String(date.getDate()).padStart(2, "0")` */
  function DayField(f: CalendarFields): string {
    PadStart(IntToString(f.day), 2, '0')
  }

  /** `String(date.getMonth() + 1).padStart(2, "0")` */
  function MonthField(f: CalendarFields): string {
    PadStart(IntToString(f.monthIndex + 1), 2, '0')
  }

  /** `String(date.getFullYear()).slice(-2)` */
  function YearField(f: CalendarFields): string {
    Slice(IntToString(f.fullYear), -2)
  }

  /**
    `getFileSafeDate`: day, month and year fields concatenated. For a valid
    date whose year has at least two digits this is exactly six decimal
    digits: the two-digit day, the two-digit one-based month, and the last
    two digits of the year.
   */
  function GetFileSafeDate(f: CalendarFields): (id: string)
    ensures Valid(f) && 10 <= Abs(f.fullYear) ==>
      id == Canonical(f.day, f.monthIndex + 1, YearOfCentury(f.fullYear))
  {
    var id := DayField(f) + MonthField(f) + YearField(f);
    if Valid(f) && 10 <= Abs(f.fullYear) then
      DayFieldIsTwoDigits(f);
      MonthFieldIsTwoDigits(f);
      YearFieldIsLastTwoDigits(f);
      id
    else
      id
  }

  /** The day field is the two-digit form of the day: a single-digit day gains a leading '0', a two-digit day is kept as it is. */
  lemma DayFieldIsTwoDigits(f: CalendarFields)
    requires Valid(f)
    ensures DayField(f) == TwoDigits(f.day)
    ensures f.day < 10 ==> DayField(f) == "0" + IntToString(f.day)
    ensures 10 <= f.day ==> DayField(f) == IntToString(f.day)
  {
    PadTwoDigits(f.day);
    PadStartToTwo(IntToString(f.day), '0');
  }

  /** The month field renders the one-based month, "01" through "12". */
  lemma MonthFieldIsTwoDigits(f: CalendarFields)
    requires Valid(f)
    ensures MonthField(f) == TwoDigits(f.monthIndex + 1)
    ensures 1 <= ParseDecimal(MonthField(f)) <= 12
  {
    PadTwoDigits(f.monthIndex + 1);
    TwoDigitsRoundTrip(f.monthIndex + 1, MonthField(f));
  }

  /**
    For a year of two or more digits (either sign: `slice(-2)` drops a minus
    sign along with the leading digits) the year field is the two-digit form
    of the year modulo 100, so 2005 gives "05".
   */
  lemma YearFieldIsLastTwoDigits(f: CalendarFields)
    requires 10 <= Abs(f.fullYear)
    ensures YearField(f) == TwoDigits(YearOfCentury(f.fullYear))
  {
    var y := f.fullYear;
    LastTwoDigits(Abs(y));
    if y < 0 {
      var s := IntToString(y);
      var t := NatToString(-y);
      assert s == "-" + t;
      assert Slice(s, -2) == s[|s| - 2..];
      assert s[|s| - 2..] == t[|t| - 2..];
    }
  }

  /**
    A year of a single digit, 0 through 9, has a one-character decimal form
    that `slice(-2)` keeps whole, so the identifier is five characters long.
   */
  lemma SingleDigitYearGivesFiveCharacters(f: CalendarFields)
    requires Valid(f) && 0 <= f.fullYear < 10
    ensures GetFileSafeDate(f) == TwoDigits(f.day) + TwoDigits(f.monthIndex + 1) + [DigitChar(f.fullYear)]
    ensures |GetFileSafeDate(f)| == 5
  {
    DayFieldIsTwoDigits(f);
    MonthFieldIsTwoDigits(f);
    YearFieldSingleDigit(f);
    assert GetFileSafeDate(f) == DayField(f) + MonthField(f) + YearField(f);
  }

  lemma YearFieldSingleDigit(f: CalendarFields)
    requires 0 <= f.fullYear < 10
    ensures YearField(f) == [DigitChar(f.fullYear)]
  {
    var y := IntToString(f.fullYear);
    assert y == [DigitChar(f.fullYear)];
    assert Slice(y, -2) == y[0..];
  }

  /** The number written by two decimal digit characters; the inverse of `TwoDigits`. */
  function PairValue(tens: char, units: char): (n: int)
    requires IsDigit(tens) && IsDigit(units)
    ensures 0 <= n < 100
    ensures DigitChar(n / 10) == tens && DigitChar(n % 10) == units
  {
    var n := DigitValue(tens) * 10 + DigitValue(units);
    DigitCharValue(n / 10, tens);
    DigitCharValue(n % 10, units);
    n
  }

  /**
    Reads a `DDMMYY` identifier back into its three numbers. Anything other
    than six decimal digits is rejected.
   */
  function Decode(id: string): (r: Option<DecodedDate>)
    ensures r.Some? <==> |id| == 6 && AllDigits(id)
    ensures r.Some? ==>
      && 0 <= r.value.day < 100 && 0 <= r.value.month < 100 && 0 <= r.value.yearOfCentury < 100
      && id == Canonical(r.value.day, r.value.month, r.value.yearOfCentury)
  {
    if |id| == 6 && AllDigits(id) then
      var r := DecodedDate(PairValue(id[0], id[1]), PairValue(id[2], id[3]), PairValue(id[4], id[5]));
      assert id == Canonical(r.day, r.month, r.yearOfCentury);
      Some(r)
    else
      None
  }

  /** Two digit characters read as a decimal number give their pair value. */
  lemma PairValueIsParse(tens: char, units: char)
    requires IsDigit(tens) && IsDigit(units)
    ensures PairValue(tens, units) == ParseDecimal([tens, units])
  {
    assert [tens, units][..1] == [tens];
    assert [tens][..0] == [];
    assert ParseDecimal([tens]) == DigitValue(tens);
    assert ParseDecimal([tens, units]) == DigitValue(tens) * 10 + DigitValue(units);
  }

  /** Decoding parses characters 0-1, 2-3 and 4-5 of the identifier as decimal numbers. */
  lemma DecodeParsesPairs(id: string)
    requires |id| == 6 && AllDigits(id)
    ensures Decode(id) == Some(DecodedDate(ParseDecimal(id[0..2]), ParseDecimal(id[2..4]), ParseDecimal(id[4..6])))
  {
    assert id[0..2] == [id[0], id[1]];
    assert id[2..4] == [id[2], id[3]];
    assert id[4..6] == [id[4], id[5]];
    PairValueIsParse(id[0], id[1]);
    PairValueIsParse(id[2], id[3]);
    PairValueIsParse(id[4], id[5]);
  }

  /** Decoding an identifier gives back the day, the one-based month and the year modulo 100. */
  lemma DecodeEncode(f: CalendarFields)
    requires Valid(f) && 10 <= Abs(f.fullYear)
    ensures Decode(GetFileSafeDate(f)) == Some(DecodedDate(f.day, f.monthIndex + 1, YearOfCentury(f.fullYear)))
  {
    EncodeCanonical(f);
  }

  /**
    Every identifier whose day and month are in range is the encoding of the
    calendar fields (day, month - 1, 2000 + YY).
   */
  lemma EncodeDecode(id: string, d: DecodedDate)
    requires Decode(id) == Some(d)
    requires 1 <= d.day <= 31 && 1 <= d.month <= 12
    ensures GetFileSafeDate(CalendarFields(d.day, d.month - 1, 2000 + d.yearOfCentury)) == id
  {
    EncodeOfCanonical(id, d.day, d.month, d.yearOfCentury);
  }

  lemma EncodeOfCanonical(id: string, day: int, month: int, y: int)
    requires 1 <= day <= 31 && 1 <= month <= 12 && 0 <= y < 100
    requires id == Canonical(day, month, y)
    ensures GetFileSafeDate(CalendarFields(day, month - 1, 2000 + y)) == id
  {
    TwentyFirstCentury(y);
    EncodeCanonical(CalendarFields(day, month - 1, 2000 + y));
  }

  lemma TwentyFirstCentury(y: int)
    requires 0 <= y < 100
    ensures 10 <= Abs(2000 + y) && YearOfCentury(2000 + y) == y
  {
    assert Abs(2000 + y) == 20 * 100 + y;
  }

  /**
    The identifier determines day, month and year modulo 100, and nothing
    more: two valid dates (years of two or more digits) share an identifier
    exactly when those three agree.
   */
  lemma Injective(a: CalendarFields, b: CalendarFields)
    requires Valid(a) && 10 <= Abs(a.fullYear)
    requires Valid(b) && 10 <= Abs(b.fullYear)
    ensures GetFileSafeDate(a) == GetFileSafeDate(b) <==>
      a.day == b.day && a.monthIndex == b.monthIndex && YearOfCentury(a.fullYear) == YearOfCentury(b.fullYear)
  {
    if GetFileSafeDate(a) == GetFileSafeDate(b) {
      DecodeEncode(a);
      DecodeEncode(b);
    }
    EncodeCanonical(a);
    EncodeCanonical(b);
  }

  /**
    The encoder's reference form as one fact. Callers use it in place of the
    function's postcondition, which keeps their proof search small.
   */
  lemma EncodeCanonical(f: CalendarFields)
    requires Valid(f) && 10 <= Abs(f.fullYear)
    ensures GetFileSafeDate(f) == Canonical(f.day, f.monthIndex + 1, YearOfCentury(f.fullYear))
  {
  }

  /** Dates a century apart collide: 1924 and 2024 give the same identifier. */
  lemma CenturiesCollide(day: int, monthIndex: int)
    requires 1 <= day <= 31 && 0 <= monthIndex <= 11
    ensures GetFileSafeDate(CalendarFields(day, monthIndex, 1924)) == GetFileSafeDate(CalendarFields(day, monthIndex, 2024))
  {
    var a, b := CalendarFields(day, monthIndex, 1924), CalendarFields(day, monthIndex, 2024);
    assert YearOfCentury(1924) == 24 == YearOfCentury(2024);
    Injective(a, b);
  }

  /**
    The shape of every identifier of a valid date: `[0-3][0-9][0-1][0-9][0-9][0-9]`.
   */
  lemma IdentifierShape(f: CalendarFields)
    requires Valid(f) && 10 <= Abs(f.fullYear)
    ensures var id := GetFileSafeDate(f);
      '0' <= id[0] <= '3' && '0' <= id[2] <= '1'
  {
    var id := GetFileSafeDate(f);
    var day, month := TwoDigits(f.day), TwoDigits(f.monthIndex + 1);
    assert id[0..2] == day && id[2..4] == month;
    assert id[0] == day[0] && id[2] == month[0];
    DigitCharAtMost(f.day / 10, 3);
    DigitCharAtMost((f.monthIndex + 1) / 10, 1);
  }

  lemma DigitCharAtMost(d: int, bound: int)
    requires 0 <= d <= bound < 10
    ensures '0' <= DigitChar(d) <= DigitChar(bound)
    ensures bound == 1 ==> DigitChar(bound) == '1'
    ensures bound == 3 ==> DigitChar(bound) == '3'
  {
  }

  /** The identifiers of 1 and 2 January 2024. */
  lemma January2024Ids()
    ensures GetFileSafeDate(CalendarFields(1, 0, 2024)) == "010124"
    ensures GetFileSafeDate(CalendarFields(2, 0, 2024)) == "020124"
  {
    assert YearOfCentury(2024) == 24;
    assert TwoDigits(1) == "01" && TwoDigits(2) == "02" && TwoDigits(24) == "24" by {
      assert DigitChar(0) == '0' && DigitChar(1) == '1' && DigitChar(2) == '2' && DigitChar(4) == '4';
    }
    assert Canonical(1, 1, 24) == "010124";
    assert Canonical(2, 1, 24) == "020124";
  }
}

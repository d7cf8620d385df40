/** The validity-date normalisation of the scraper: the text "Current" means the
    lot is current; otherwise `strptime` is tried with "%Y-%m-%d", then with
    "%d-%b-%Y", and a parsed date is printed with `strftime("%d/%m/%Y")`.
    Anything else becomes the invalid-date marker. */
module ValidityDate {
  import opened Wrappers
  import opened Text

  /** The marker the catalog shows for a lot that is still valid. */
  const CurrentMarker := "Current"
  /** Output for a current lot. */
  const CurrentToken := "Vigente"
  /** Output when no format parses. */
  const InvalidToken := "Data Inv\U{E1}lida"

  datatype Date = Date(year: int, month: int, day: int)

  /** The Gregorian leap-year rule. */
  predicate IsLeapYear(y: int) {
    y % 4 == 0 && (y % 100 != 0 || y % 400 == 0)
  }

  function DaysInMonth(y: int, m: int): (n: int)
    requires 1 <= m <= 12
    ensures 28 <= n <= 31
  {
    if m == 2 then (if IsLeapYear(y) then 29 else 28)
    else if m == 4 || m == 6 || m == 9 || m == 11 then 30
    else 31
  }

  /** The dates Python's `datetime` accepts: years 1 to 9999, a month, and a day
      that exists in that month. */
  predicate IsValidDate(d: Date) {
    1 <= d.year <= 9999 && 1 <= d.month <= 12 && 1 <= d.day <= DaysInMonth(d.year, d.month)
  }

  /** The check `datetime` makes once the fields are read. */
  function MakeDate(y: int, m: int, d: int): (r: Option<Date>)
    ensures r.Some? <==> IsValidDate(Date(y, m, d))
    ensures r.Some? ==> r.value == Date(y, m, d)
  {
    if IsValidDate(Date(y, m, d)) then Some(Date(y, m, d)) else None
  }

  /** February 29 exists exactly in leap years. */
  lemma LeapDay(y: int)
    requires 1 <= y <= 9999
    ensures IsValidDate(Date(y, 2, 29)) <==> IsLeapYear(y)
  {
  }

  // ---- digits -------------------------------------------------------------

  predicate IsDigit(c: char) {
    '0' <= c <= '9'
  }

  predicate AllDigits(t: string) {
    forall i :: 0 <= i < |t| ==> IsDigit(t[i])
  }

  function DigitValue(c: char): int
    requires IsDigit(c)
  {
    c as int - '0' as int
  }

  function Digit(n: int): (c: char)
    requires 0 <= n <= 9
    ensures IsDigit(c) && DigitValue(c) == n
  {
    ('0' as int + n) as char
  }

  /** The number a string of decimal digits spells. */
  function DecimalValue(t: string): nat
    requires AllDigits(t)
  {
    if t == [] then 0 else 10 * DecimalValue(t[..|t| - 1]) + DigitValue(t[|t| - 1])
  }

  lemma DecimalTwo(a: char, b: char)
    requires IsDigit(a) && IsDigit(b)
    ensures AllDigits([a, b]) && DecimalValue([a, b]) == 10 * DigitValue(a) + DigitValue(b)
  {
    assert [a, b][..1] == [a];
    assert [a][..0] == [];
    assert DecimalValue([a]) == DigitValue(a);
  }

  lemma DecimalFour(a: char, b: char, c: char, d: char)
    requires IsDigit(a) && IsDigit(b) && IsDigit(c) && IsDigit(d)
    ensures AllDigits([a, b, c, d])
    ensures DecimalValue([a, b, c, d])
            == 1000 * DigitValue(a) + 100 * DigitValue(b) + 10 * DigitValue(c) + DigitValue(d)
  {
    assert [a, b, c, d][..3] == [a, b, c];
    assert [a, b, c][..2] == [a, b];
    DecimalTwo(a, b);
  }

  /** `n` printed with two digits, zero-padded as `%d` and `%m` do. */
  function Pad2(n: int): (r: string)
    requires 0 <= n <= 99
    ensures |r| == 2 && AllDigits(r) && DecimalValue(r) == n
  {
    DecimalTwo(Digit(n / 10), Digit(n % 10));
    [Digit(n / 10), Digit(n % 10)]
  }

  /** `n` printed with four digits, zero-padded. */
  function Pad4(n: int): (r: string)
    requires 0 <= n <= 9999
    ensures |r| == 4 && AllDigits(r) && DecimalValue(r) == n
  {
    var m := n / 10;
    var m2 := m / 10;
    DecimalFour(Digit(m2 / 10), Digit(m2 % 10), Digit(m % 10), Digit(n % 10));
    [Digit(m2 / 10), Digit(m2 % 10), Digit(m % 10), Digit(n % 10)]
  }

  // ---- the directives of strptime ----------------------------------------

  /** `%Y`: exactly four digits. */
  function YearField(t: string): (r: Option<int>)
    ensures r.Some? <==> |t| == 4 && AllDigits(t)
    ensures r.Some? ==> r.value == DecimalValue(t) && 0 <= r.value <= 9999
  {
    if |t| == 4 && AllDigits(t) then
      DecimalFour(t[0], t[1], t[2], t[3]);
      assert t == [t[0], t[1], t[2], t[3]];
      Some(DecimalValue(t))
    else None
  }

  /** The value of a one- or two-digit string. */
  lemma DecimalShort(t: string)
    ensures |t| == 1 && AllDigits(t) ==> DecimalValue(t) == DigitValue(t[0])
    ensures |t| == 2 && AllDigits(t) ==> DecimalValue(t) == 10 * DigitValue(t[0]) + DigitValue(t[1])
  {
    if |t| == 2 && AllDigits(t) {
      DecimalTwo(t[0], t[1]);
      assert t == [t[0], t[1]];
    } else if |t| == 1 {
      assert t[..0] == [];
    }
  }

  /** `%m`, the alternatives `1[0-2]|0[1-9]|[1-9]`: exactly the months 1 to 12
      written with one or two digits. */
  function MonthField(t: string): (r: Option<int>)
    ensures r.Some? ==> 1 <= r.value <= 12 && 1 <= |t| <= 2 && AllDigits(t) && DecimalValue(t) == r.value
    ensures 1 <= |t| <= 2 && AllDigits(t) && 1 <= DecimalValue(t) <= 12 ==> r == Some(DecimalValue(t))
  {
    DecimalShort(t);
    if |t| == 2 && t[0] == '1' && '0' <= t[1] <= '2' then
      Some(10 + DigitValue(t[1]))
    else if |t| == 2 && t[0] == '0' && '1' <= t[1] <= '9' then
      Some(DigitValue(t[1]))
    else if |t| == 1 && '1' <= t[0] <= '9' then
      Some(DigitValue(t[0]))
    else None
  }

  /** `%d`, the alternatives `3[01]|[12]\d|0[1-9]|[1-9]| [1-9]`: exactly the days
      1 to 31 written with one or two digits, or a space and one nonzero digit. */
  function DayField(t: string): (r: Option<int>)
    ensures r.Some? ==> 1 <= r.value <= 31 && 1 <= |t| <= 2
    ensures r.Some? && t[0] != ' ' ==> AllDigits(t) && DecimalValue(t) == r.value
    ensures r.Some? && t[0] == ' ' ==> |t| == 2 && IsDigit(t[1]) && DigitValue(t[1]) == r.value
    ensures 1 <= |t| <= 2 && AllDigits(t) && 1 <= DecimalValue(t) <= 31 ==> r == Some(DecimalValue(t))
    ensures |t| == 2 && t[0] == ' ' && '1' <= t[1] <= '9' ==> r == Some(DigitValue(t[1]))
  {
    DecimalShort(t);
    if |t| == 2 && t[0] == '3' && (t[1] == '0' || t[1] == '1') then
      Some(30 + DigitValue(t[1]))
    else if |t| == 2 && (t[0] == '1' || t[0] == '2') && IsDigit(t[1]) then
      Some(10 * DigitValue(t[0]) + DigitValue(t[1]))
    else if |t| == 2 && t[0] == '0' && '1' <= t[1] <= '9' then
      Some(DigitValue(t[1]))
    else if |t| == 2 && t[0] == ' ' && '1' <= t[1] <= '9' then
      Some(DigitValue(t[1]))
    else if |t| == 1 && '1' <= t[0] <= '9' then
      Some(DigitValue(t[0]))
    else None
  }

  /** The English month abbreviations `%b` accepts in the C locale, in calendar order. */
  const MonthNames: seq<string> :=
    ["jan", "feb", "mar", "apr", "may", "jun", "jul", "aug", "sep", "oct", "nov", "dec"]

  function LowerAscii(c: char): char {
    if 'A' <= c <= 'Z' then (c as int + 32) as char else c
  }

  /** Position (from 1) of `t` among `MonthNames[k..]`, if it is there. */
  function FindMonthName(t: string, k: nat): (r: Option<int>)
    requires k <= 12
    ensures r.Some? ==> k < r.value <= 12 && MonthNames[r.value - 1] == t
    ensures r.None? ==> forall i :: k <= i < 12 ==> MonthNames[i] != t
    decreases 12 - k
  {
    if k == 12 then None
    else if MonthNames[k] == t then Some(k + 1)
    else FindMonthName(t, k + 1)
  }

  /** `%b`: a three-letter English month abbreviation, in any letter case. */
  function MonthNameField(t: string): (r: Option<int>)
    ensures r.Some? ==> |t| == 3 && 1 <= r.value <= 12
                        && MonthNames[r.value - 1] == [LowerAscii(t[0]), LowerAscii(t[1]), LowerAscii(t[2])]
    ensures |t| == 3 && r.None? ==>
              forall i :: 0 <= i < 12 ==> MonthNames[i] != [LowerAscii(t[0]), LowerAscii(t[1]), LowerAscii(t[2])]
  {
    if |t| == 3 then FindMonthName([LowerAscii(t[0]), LowerAscii(t[1]), LowerAscii(t[2])], 0)
    else None
  }

  /** Where a field of one or two characters ends: at the first '-', which must
      be the second or third character. Neither `%d` nor `%m` lets a '-' through,
      so this is the only split the pattern can take. */
  function FieldEnd(t: string): (r: Option<nat>)
    ensures r.Some? ==> (r.value == 1 || r.value == 2) && r.value < |t| && t[r.value] == '-'
    ensures r.Some? && r.value == 2 ==> t[1] != '-'
    ensures r.None? ==> (|t| > 1 ==> t[1] != '-') && (|t| > 2 ==> t[2] != '-')
  {
    if |t| > 1 && t[1] == '-' then Some(1)
    else if |t| > 2 && t[2] == '-' then Some(2)
    else None
  }

  // ---- the two formats --------------------------------------------------------

  /** `datetime.strptime(s, "%Y-%m-%d")`, with `None` where Python raises
      `ValueError`: the whole text must be matched and the date must exist. */
  function ParseIso(s: string): (r: Option<Date>)
    ensures r.Some? ==> IsValidDate(r.value)
  {
    if |s| < 5 || s[4] != '-' then None
    else
      var rest := s[5..];
      match (YearField(s[..4]), FieldEnd(rest))
      case (Some(y), Some(j)) =>
        (match (MonthField(rest[..j]), DayField(rest[j + 1..]))
         case (Some(m), Some(d)) => MakeDate(y, m, d)
         case _ => None)
      case _ => None
  }

  /** `datetime.strptime(s, "%d-%b-%Y")`, with `None` where Python raises
      `ValueError`. */
  function ParseAbbrev(s: string): (r: Option<Date>)
    ensures r.Some? ==> IsValidDate(r.value)
  {
    match FieldEnd(s)
    case None => None
    case Some(j) =>
      var rest := s[j + 1..];
      if |rest| != 8 || rest[3] != '-' then None
      else
        match (DayField(s[..j]), MonthNameField(rest[..3]), YearField(rest[4..]))
        case (Some(d), Some(m), Some(y)) => MakeDate(y, m, d)
        case _ => None
  }

  /** The shape of `strftime("%d/%m/%Y")`: two digits, '/', two digits, '/', four digits. */
  predicate IsDisplayShape(r: string) {
    |r| == 10 && r[2] == '/' && r[5] == '/' && AllDigits(r[..2]) && AllDigits(r[3..5]) && AllDigits(r[6..])
  }

  /** `strftime("%d/%m/%Y")`: day, month and year, zero-padded. */
  function Display(d: Date): (r: string)
    requires IsValidDate(d)
    ensures IsDisplayShape(r)
    ensures DecimalValue(r[..2]) == d.day && DecimalValue(r[3..5]) == d.month
            && DecimalValue(r[6..]) == d.year
  {
    var r := Pad2(d.day) + "/" + Pad2(d.month) + "/" + Pad4(d.year);
    assert r[..2] == Pad2(d.day) && r[3..5] == Pad2(d.month) && r[6..] == Pad4(d.year);
    r
  }

  /** Distinct dates print differently. */
  lemma DisplayInjective(d1: Date, d2: Date)
    requires IsValidDate(d1) && IsValidDate(d2)
    requires Display(d1) == Display(d2)
    ensures d1 == d2
  {
  }

  /** The validity column as the scraper writes it: "Current" wins, then the ISO
      format, then the abbreviated-month format, then the invalid-date marker. */
  function NormaliseDate(s: string): (r: string)
    ensures r == CurrentToken <==> Contains(s, CurrentMarker)
    ensures r == CurrentToken || r == InvalidToken || IsDisplayShape(r)
  {
    if Contains(s, CurrentMarker) then CurrentToken
    else
      match ParseIso(s)
      case Some(d) => Display(d)
      case None =>
        match ParseAbbrev(s)
        case Some(d) => Display(d)
        case None => InvalidToken
  }

  // ---- what the parsers accept ------------------------------------------------------

  /** Every spelling the ISO pattern allows is read field by field, and the date
      check then decides. */
  lemma ParseIsoFields(ys: string, ms: string, ds: string)
    requires YearField(ys).Some? && MonthField(ms).Some? && DayField(ds).Some?
    ensures ParseIso(ys + "-" + ms + "-" + ds)
            == MakeDate(YearField(ys).value, MonthField(ms).value, DayField(ds).value)
  {
    var s := ys + "-" + ms + "-" + ds;
    var rest := s[5..];
    assert s[..4] == ys && s[4] == '-';
    assert rest == ms + "-" + ds;
    assert rest[|ms|] == '-';
    assert |ms| == 2 ==> rest[1] == ms[1];
    assert FieldEnd(rest) == Some(|ms|);
    assert rest[..|ms|] == ms && rest[|ms| + 1..] == ds;
  }

  /** Whatever the ISO parser accepts is such a spelling of a valid date. */
  lemma ParseIsoSpelled(s: string)
    requires ParseIso(s).Some?
    ensures IsValidDate(ParseIso(s).value)
    ensures exists ys, ms, ds :: s == ys + "-" + ms + "-" + ds
              && YearField(ys) == Some(ParseIso(s).value.year)
              && MonthField(ms) == Some(ParseIso(s).value.month)
              && DayField(ds) == Some(ParseIso(s).value.day)
  {
    var rest := s[5..];
    var j := FieldEnd(rest).value;
    assert s == s[..4] + "-" + rest[..j] + "-" + rest[j + 1..];
  }

  /** Every spelling the abbreviated-month pattern allows is read field by field. */
  lemma ParseAbbrevFields(ds: string, ns: string, ys: string)
    requires DayField(ds).Some? && MonthNameField(ns).Some? && YearField(ys).Some?
    ensures ParseAbbrev(ds + "-" + ns + "-" + ys)
            == MakeDate(YearField(ys).value, MonthNameField(ns).value, DayField(ds).value)
  {
    var s := ds + "-" + ns + "-" + ys;
    assert s[|ds|] == '-';
    assert |ds| == 2 ==> s[1] == ds[1];
    assert FieldEnd(s) == Some(|ds|);
    var rest := s[|ds| + 1..];
    assert rest == ns + "-" + ys;
    assert s[..|ds|] == ds && rest[..3] == ns && rest[4..] == ys;
  }

  /** Whatever the abbreviated-month parser accepts is such a spelling of a valid date. */
  lemma ParseAbbrevSpelled(s: string)
    requires ParseAbbrev(s).Some?
    ensures IsValidDate(ParseAbbrev(s).value)
    ensures exists ds, ns, ys :: s == ds + "-" + ns + "-" + ys
              && DayField(ds) == Some(ParseAbbrev(s).value.day)
              && MonthNameField(ns) == Some(ParseAbbrev(s).value.month)
              && YearField(ys) == Some(ParseAbbrev(s).value.year)
  {
    var j := FieldEnd(s).value;
    var rest := s[j + 1..];
    assert s == s[..j] + "-" + rest[..3] + "-" + rest[4..];
  }

  /** Text that starts with four digits never has the abbreviated-month shape. */
  lemma FourDigitsNotAbbrev(s: string)
    requires |s| >= 4 && AllDigits(s[..4])
    ensures ParseAbbrev(s).None?
  {
    assert s[1] == s[..4][1] && s[2] == s[..4][2];
  }

  /** The two formats never both accept a text, so the order of the attempts only
      matters for which error Python would report. */
  lemma ParsersExclusive(s: string)
    ensures ParseIso(s).None? || ParseAbbrev(s).None?
  {
    if ParseIso(s).Some? {
      FourDigitsNotAbbrev(s);
    }
  }

  // ---- what the normalisation yields --------------------------------------------

  /** Wherever "Current" occurs, the lot is current, whatever else the text holds. */
  lemma CurrentAnywhere(a: string, b: string)
    ensures NormaliseDate(a + CurrentMarker + b) == CurrentToken
  {
    var s := a + CurrentMarker + b;
    assert s[|a|..|a| + |CurrentMarker|] == CurrentMarker;
    assert OccursAt(s, CurrentMarker, |a|);
    ContainsIff(s, CurrentMarker);
  }

  /** An ISO spelling is shown as its date; a day that does not exist in its month
      (February 29 of a common year, say) gives the invalid-date marker. */
  lemma NormaliseIsoFields(ys: string, ms: string, ds: string)
    requires YearField(ys).Some? && MonthField(ms).Some? && DayField(ds).Some?
    ensures var d := Date(YearField(ys).value, MonthField(ms).value, DayField(ds).value);
            NormaliseDate(ys + "-" + ms + "-" + ds) == if IsValidDate(d) then Display(d) else InvalidToken
  {
    var s := ys + "-" + ms + "-" + ds;
    forall i | 0 <= i < |s| ensures s[i] != 'C' {
      if i < 4 {
        assert s[i] == ys[i];
      } else if 4 < i < 5 + |ms| {
        assert s[i] == ms[i - 5];
      } else if i > 5 + |ms| {
        assert s[i] == ds[i - 6 - |ms|];
      }
    }
    NotContainsMissingChar(s, CurrentMarker, 0);
    ParseIsoFields(ys, ms, ds);
    assert s[..4] == ys;
    FourDigitsNotAbbrev(s);
  }

  /** An abbreviated-month spelling is shown as its date, or as the invalid-date
      marker when that day does not exist. */
  lemma NormaliseAbbrevFields(ds: string, ns: string, ys: string)
    requires DayField(ds).Some? && MonthNameField(ns).Some? && YearField(ys).Some?
    ensures var d := Date(YearField(ys).value, MonthNameField(ns).value, DayField(ds).value);
            NormaliseDate(ds + "-" + ns + "-" + ys) == if IsValidDate(d) then Display(d) else InvalidToken
  {
    var s := ds + "-" + ns + "-" + ys;
    assert s[|ds| + 4] == '-';
    NotContainsAcross(s, CurrentMarker, |ds| + 4);
    assert s[..4][|ds|] == '-';
    ParseAbbrevFields(ds, ns, ys);
  }

  /** A displayed date written back in ISO form is displayed the same way again. */
  lemma IsoRoundTrip(d: Date)
    requires IsValidDate(d)
    ensures NormaliseDate(Pad4(d.year) + "-" + Pad2(d.month) + "-" + Pad2(d.day)) == Display(d)
  {
    var ys, ms, ds := Pad4(d.year), Pad2(d.month), Pad2(d.day);
    assert ys == [ys[0], ys[1], ys[2], ys[3]];
    assert YearField(ys) == Some(d.year);
    assert MonthField(ms) == Some(d.month);
    assert DayField(ds) == Some(d.day);
    NormaliseIsoFields(ys, ms, ds);
  }

  // ---- examples ---------------------------------------------------

  lemma DisplayExample()
    ensures Display(Date(2024, 5, 1)) == "01/05/2024"
  {
  }

  lemma Year2024()
    ensures YearField("2024") == Some(2024)
  {
    DecimalFour('2', '0', '2', '4');
    assert "2024" == ['2', '0', '2', '4'];
  }

  lemma IsoExample(s: string)
    requires s == "2024-05-01"
    ensures NormaliseDate(s) == "01/05/2024"
  {
    assert s == "2024" + "-" + "05" + "-" + "01";
    Year2024();
    NormaliseIsoFields("2024", "05", "01");
    DisplayExample();
  }

  /** `%m` and `%d` also take unpadded fields. */
  lemma UnpaddedIsoExample(s: string)
    requires s == "2024-5-1"
    ensures NormaliseDate(s) == "01/05/2024"
  {
    assert s == "2024" + "-" + "5" + "-" + "1";
    Year2024();
    assert MonthField("5") == Some(5);
    assert DayField("1") == Some(1);
    NormaliseIsoFields("2024", "5", "1");
    DisplayExample();
  }

  lemma AbbrevExample(s: string)
    requires s == "01-May-2024"
    ensures NormaliseDate(s) == "01/05/2024"
  {
    assert s == "01" + "-" + "May" + "-" + "2024";
    Year2024();
    MayIsMonthFive();
    NormaliseAbbrevFields("01", "May", "2024");
    DisplayExample();
  }

  lemma MayIsMonthFive()
    ensures MonthNameField("May") == Some(5)
  {
    assert [LowerAscii('M'), LowerAscii('a'), LowerAscii('y')] == "may";
    assert FindMonthName("may", 4) == Some(5);
  }

  /** 2023 is no leap year, so its February 29 does not parse. */
  lemma CommonYearLeapDayExample(s: string)
    requires s == "2023-02-29"
    ensures ParseIso(s).None? && NormaliseDate(s) == InvalidToken
  {
    assert s == "2023" + "-" + "02" + "-" + "29";
    DecimalFour('2', '0', '2', '3');
    assert YearField("2023") == Some(2023);
    ParseIsoFields("2023", "02", "29");
    NormaliseIsoFields("2023", "02", "29");
  }

  lemma NotADateExample(s: string)
    requires s == "not-a-date"
    ensures NormaliseDate(s) == InvalidToken
  {
    NotContainsMissingChar(s, CurrentMarker, 0);
  }

  lemma CurrentExample(s: string)
    requires s == "Current"
    ensures NormaliseDate(s) == CurrentToken
  {
    CurrentAnywhere("", "");
    assert "" + CurrentMarker + "" == s;
  }
}

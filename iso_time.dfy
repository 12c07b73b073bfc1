/** Timestamps: `iso_to_dt` (datetime.strptime with "%Y-%m-%dT%H:%M:%SZ"),
    Python's ordering of naive datetimes, and the whole-second difference
    used for latencies. */
module IsoTime {
  import opened Wrappers

  /** A naive datetime as Python holds it: calendar fields and microseconds. */
  datatype DateTime = DateTime(year: int, month: int, day: int,
                               hour: int, minute: int, second: int,
                               microsecond: int)

  predicate IsLeap(year: int) {
    year % 4 == 0 && (year % 100 != 0 || year % 400 == 0)
  }

  function DaysInYear(year: int): int {
    if IsLeap(year) then 366 else 365
  }

  function DaysInMonth(year: int, month: int): (n: int)
    requires 1 <= month <= 12
    ensures 28 <= n <= 31
  {
    if month == 2 then (if IsLeap(year) then 29 else 28)
    else if month == 4 || month == 6 || month == 9 || month == 11 then 30
    else 31
  }

  /** The ranges the `date` and `datetime` constructors enforce. */
  predicate Valid(t: DateTime) {
    && 1 <= t.year <= 9999
    && 1 <= t.month <= 12
    && 1 <= t.day <= DaysInMonth(t.year, t.month)
    && 0 <= t.hour < 24
    && 0 <= t.minute < 60
    && 0 <= t.second < 60
    && 0 <= t.microsecond < 1000000
  }

  // ---------------------------------------------------------------------
  // Calendar arithmetic (proleptic Gregorian, as Python's date.toordinal)
  // ---------------------------------------------------------------------

  /** The days of the years before `year`, counted year by year;
      `DaysBeforeYearClosed` shows it is the closed form Python uses. */
  function DaysBeforeYear(year: int): int
    requires year >= 1
  {
    if year == 1 then 0 else DaysBeforeYear(year - 1) + DaysInYear(year - 1)
  }

  function DaysBeforeMonth(year: int, month: int): int
    requires 1 <= month <= 12
  {
    var table := [0, 31, 59, 90, 120, 151, 181, 212, 243, 273, 304, 334];
    table[month - 1] + (if month > 2 && IsLeap(year) then 1 else 0)
  }

  /** date.toordinal(): 0001-01-01 is day 1. */
  function Ordinal(t: DateTime): int
    requires Valid(t)
  {
    DaysBeforeYear(t.year) + DaysBeforeMonth(t.year, t.month) + t.day
  }

  /** Whole seconds on the ordinal time line; the difference of two of these
      is `(a - b).total_seconds()` for datetimes without microseconds. */
  function Seconds(t: DateTime): int
    requires Valid(t)
  {
    Ordinal(t) * 86400 + t.hour * 3600 + t.minute * 60 + t.second
  }

  /** Microseconds on the same time line. */
  function Micros(t: DateTime): int
    requires Valid(t)
  {
    Seconds(t) * 1000000 + t.microsecond
  }

  /** `a < b` on naive datetimes: field by field, most significant first. */
  predicate Before(a: DateTime, b: DateTime) {
    if a.year != b.year then a.year < b.year
    else if a.month != b.month then a.month < b.month
    else if a.day != b.day then a.day < b.day
    else if a.hour != b.hour then a.hour < b.hour
    else if a.minute != b.minute then a.minute < b.minute
    else if a.second != b.second then a.second < b.second
    else a.microsecond < b.microsecond
  }

  /** `_days_before_year`: y * 365 + y // 4 - y // 100 + y // 400 with
      y = year - 1. */
  lemma {:induction false} DaysBeforeYearClosed(year: int)
    requires year >= 1
    ensures var y := year - 1;
      DaysBeforeYear(year) == y * 365 + y / 4 - y / 100 + y / 400
    decreases year
  {
    if year > 1 {
      DaysBeforeYearClosed(year - 1);
      LeapDivisions(year - 1);
    }
  }

  /** The length of `year` in terms of the divisions of the closed form:
      one day more for every 4th year, one less for every 100th, one more
      for every 400th. */
  lemma LeapDivisions(year: int)
    ensures DaysInYear(year)
         == 365 + (year / 4 - (year - 1) / 4) - (year / 100 - (year - 1) / 100) + (year / 400 - (year - 1) / 400)
  {
    assert year / 4 - (year - 1) / 4 == (if year % 4 == 0 then 1 else 0);
    assert year / 100 - (year - 1) / 100 == (if year % 100 == 0 then 1 else 0);
    assert year / 400 - (year - 1) / 400 == (if year % 400 == 0 then 1 else 0);
    if year % 400 == 0 {
      assert year == 100 * (4 * (year / 400));
    }
    if year % 100 == 0 {
      assert year == 4 * (25 * (year / 100));
    }
  }

  lemma DaysBeforeYearStep(year: int)
    requires year >= 1
    ensures DaysBeforeYear(year + 1) == DaysBeforeYear(year) + DaysInYear(year)
  {
  }

  /** Every day of `year` lies before every day of a later year. */
  lemma {:induction false} DaysBeforeYearGrows(year: int, later: int)
    requires 1 <= year < later
    ensures DaysBeforeYear(year) + DaysInYear(year) <= DaysBeforeYear(later)
    decreases later - year
  {
    DaysBeforeYearStep(year);
    if year + 1 < later {
      DaysBeforeYearGrows(year + 1, later);
    }
  }

  lemma DaysBeforeMonthStep(year: int, month: int)
    requires 1 <= month <= 12
    ensures month < 12 ==>
      DaysBeforeMonth(year, month + 1) == DaysBeforeMonth(year, month) + DaysInMonth(year, month)
    ensures month == 12 ==>
      DaysBeforeMonth(year, month) + DaysInMonth(year, month) == DaysInYear(year)
  {
  }

  lemma {:induction false} DaysBeforeMonthGrows(year: int, month: int, later: int)
    requires 1 <= month < later <= 12
    ensures DaysBeforeMonth(year, month) + DaysInMonth(year, month) <= DaysBeforeMonth(year, later)
    decreases later - month
  {
    DaysBeforeMonthStep(year, month);
    if month + 1 < later {
      DaysBeforeMonthGrows(year, month + 1, later);
    }
  }

  /** A valid date's day of the year lies within its year. */
  lemma DayOfYearBounds(t: DateTime)
    requires Valid(t)
    ensures 1 <= DaysBeforeMonth(t.year, t.month) + t.day <= DaysInYear(t.year)
  {
    if t.month < 12 {
      DaysBeforeMonthGrows(t.year, t.month, 12);
    }
    DaysBeforeMonthStep(t.year, 12);
  }

  lemma OrdinalsOfEarlierYear(a: DateTime, b: DateTime)
    requires Valid(a) && Valid(b) && a.year < b.year
    ensures Ordinal(a) < Ordinal(b)
  {
    DayOfYearBounds(a);
    DayOfYearBounds(b);
    DaysBeforeYearGrows(a.year, b.year);
  }

  lemma OrdinalsOfEarlierMonth(a: DateTime, b: DateTime)
    requires Valid(a) && Valid(b) && a.year == b.year && a.month < b.month
    ensures Ordinal(a) < Ordinal(b)
  {
    DaysBeforeMonthGrows(a.year, a.month, b.month);
  }

  lemma EarlierIsBefore(a: DateTime, b: DateTime)
    requires Valid(a) && Valid(b) && Before(a, b)
    ensures Micros(a) < Micros(b)
  {
    if a.year < b.year {
      OrdinalsOfEarlierYear(a, b);
    } else if a.year == b.year && a.month < b.month {
      OrdinalsOfEarlierMonth(a, b);
    }
  }

  /** Python's field-by-field comparison of datetimes agrees with their
      order on the time line, so the cutoff test and the latencies
      measure the same clock. */
  lemma BeforeIffEarlier(a: DateTime, b: DateTime)
    requires Valid(a) && Valid(b)
    ensures Before(a, b) <==> Micros(a) < Micros(b)
  {
    if Before(a, b) {
      EarlierIsBefore(a, b);
    } else if a != b {
      assert Before(b, a);
      EarlierIsBefore(b, a);
    }
  }

  // ---------------------------------------------------------------------
  // iso_to_dt: strptime driven by the format "%Y-%m-%dT%H:%M:%SZ"
  // ---------------------------------------------------------------------

  /** One element of a strptime format: a literal character or a directive. */
  datatype Directive = Literal(c: char) | Year | Month | Day | Hour | Minute | Second

  /** The format "%Y-%m-%dT%H:%M:%SZ". */
  const IsoFormat: seq<Directive> := [Year, Literal('-'), Month, Literal('-'), Day, Literal('T'),
                                      Hour, Literal(':'), Minute, Literal(':'), Second, Literal('Z')]

  predicate IsDigit(c: char) {
    '0' <= c <= '9'
  }

  predicate AllDigits(text: string) {
    forall k | 0 <= k < |text| :: IsDigit(text[k])
  }

  function DigitValue(c: char): (n: int)
    requires IsDigit(c)
    ensures 0 <= n < 10
  {
    c as int - '0' as int
  }

  /** The decimal value of a run of digits. */
  function Number(text: string): (n: int)
    requires AllDigits(text)
    ensures 0 <= n
  {
    if text == [] then 0 else 10 * Number(text[..|text| - 1]) + DigitValue(text[|text| - 1])
  }

  /** A literal of the format matches ignoring case, as strptime compiles
      its pattern with re.IGNORECASE. */
  predicate LiteralMatches(lit: char, c: char) {
    c == lit || ('A' <= lit <= 'Z' && c as int == lit as int + 32)
  }

  /** One character of the class [lo-hi]. */
  predicate One(text: string, lo: char, hi: char) {
    |text| == 1 && lo <= text[0] <= hi
  }

  /** Two characters, of the classes [lo0-hi0] and [lo1-hi1]. */
  predicate Two(text: string, lo0: char, hi0: char, lo1: char, hi1: char) {
    |text| == 2 && lo0 <= text[0] <= hi0 && lo1 <= text[1] <= hi1
  }

  /** The text a directive's regular expression in `_strptime` accepts,
      alternative by alternative:
        %Y  \d\d\d\d
        %m  1[0-2]|0[1-9]|[1-9]
        %d  3[01]|[12]\d|0[1-9]|[1-9]| [1-9]
        %H  2[0-3]|[0-1]\d|\d
        %M  [0-5]\d|\d
        %S  6[0-1]|[0-5]\d|\d */
  predicate FieldText(d: Directive, text: string)
    requires !d.Literal?
  {
    match d
    case Year => |text| == 4 && AllDigits(text)
    case Month => Two(text, '1', '1', '0', '2') || Two(text, '0', '0', '1', '9') || One(text, '1', '9')
    case Day =>
      || Two(text, '3', '3', '0', '1') || Two(text, '1', '2', '0', '9') || Two(text, '0', '0', '1', '9')
      || One(text, '1', '9') || Two(text, ' ', ' ', '1', '9')
    case Hour => Two(text, '2', '2', '0', '3') || Two(text, '0', '1', '0', '9') || One(text, '0', '9')
    case Minute => Two(text, '0', '5', '0', '9') || One(text, '0', '9')
    case Second => Two(text, '6', '6', '0', '1') || Two(text, '0', '5', '0', '9') || One(text, '0', '9')
  }

  /** Apart from the space-padded day, accepted field text is all digits. */
  lemma FieldTextDigits(d: Directive, text: string)
    requires !d.Literal? && FieldText(d, text)
    ensures text[0] == ' ' || AllDigits(text)
    ensures text[0] == ' ' ==> |text| == 2 && IsDigit(text[1])
  {
  }

  function FieldValue(d: Directive, text: string): int
    requires !d.Literal? && FieldText(d, text)
  {
    FieldTextDigits(d, text);
    if text[0] == ' ' then DigitValue(text[1]) else Number(text)
  }

  /** How many values a format yields. */
  function FieldCount(fmt: seq<Directive>): nat {
    if fmt == [] then 0 else (if fmt[0].Literal? then 0 else 1) + FieldCount(fmt[1..])
  }

  /** Matches the whole of `s` against `fmt`, returning the directives'
      values in order. A numeric field is tried two characters wide first,
      then one (the regular expression's alternatives); the year is four
      wide. */
  function Scan(s: string, fmt: seq<Directive>): (r: Option<seq<int>>)
    ensures r.Some? ==> |r.value| == FieldCount(fmt)
    decreases |fmt|, 1
  {
    if fmt == [] then
      if s == [] then Some([]) else None
    else if fmt[0].Literal? then
      if s != [] && LiteralMatches(fmt[0].c, s[0]) then Scan(s[1..], fmt[1..]) else None
    else if fmt[0] == Year then
      TakeField(s, fmt, 4)
    else
      match TakeField(s, fmt, 2)
      case Some(values) => Some(values)
      case None => TakeField(s, fmt, 1)
  }

  /** The first directive of `fmt` takes the next `width` characters. */
  function TakeField(s: string, fmt: seq<Directive>, width: nat): (r: Option<seq<int>>)
    requires fmt != [] && !fmt[0].Literal?
    ensures r.Some? ==> |r.value| == FieldCount(fmt)
    decreases |fmt|, 0
  {
    if |s| >= width && FieldText(fmt[0], s[..width]) then
      match Scan(s[width..], fmt[1..])
      case None => None
      case Some(rest) => Some([FieldValue(fmt[0], s[..width])] + rest)
    else
      None
  }

  lemma IsoFormatFields()
    ensures FieldCount(IsoFormat) == 6
  {
    var f := IsoFormat;
    assert FieldCount(f[12..]) == 0;
    assert FieldCount(f[11..]) == 0 && FieldCount(f[10..]) == 1 && FieldCount(f[9..]) == 1;
    assert FieldCount(f[8..]) == 2 && FieldCount(f[7..]) == 2 && FieldCount(f[6..]) == 3;
    assert FieldCount(f[5..]) == 3 && FieldCount(f[4..]) == 4 && FieldCount(f[3..]) == 4;
    assert FieldCount(f[2..]) == 5 && FieldCount(f[1..]) == 5;
  }

  /** `datetime.strptime(s, "%Y-%m-%dT%H:%M:%SZ")`; None stands for the
      ValueError it raises, both for text that does not match the format and
      for fields the date and datetime constructors reject (day 31 of a 30-day month,
      second 60 or 61, year 0). */
  function ParseIso(s: string): (r: Option<DateTime>)
    ensures r.Some? ==> Valid(r.value) && r.value.microsecond == 0
  {
    match Scan(s, IsoFormat)
    case None => None
    case Some(v) =>
      IsoFormatFields();
      var t := DateTime(v[0], v[1], v[2], v[3], v[4], v[5], 0);
      if Valid(t) then Some(t) else None
  }

  // ---------------------------------------------------------------------
  // The canonical text, the parser's inverse
  // ---------------------------------------------------------------------

  function Digit(n: int): (c: char)
    requires 0 <= n < 10
    ensures IsDigit(c) && DigitValue(c) == n
  {
    ('0' as int + n) as char
  }

  function Pad2(n: int): (s: string)
    requires 0 <= n < 100
    ensures |s| == 2 && AllDigits(s) && Number(s) == n
  {
    var s := [Digit(n / 10), Digit(n % 10)];
    NumberOfPair(s);
    s
  }

  function Pad4(n: int): (s: string)
    requires 0 <= n < 10000
    ensures |s| == 4 && AllDigits(s) && Number(s) == n
  {
    var s := Pad2(n / 100) + Pad2(n % 100);
    NumberOfPairs(Pad2(n / 100), Pad2(n % 100));
    s
  }

  lemma NumberOfPair(text: string)
    requires |text| == 2 && AllDigits(text)
    ensures Number(text) == 10 * DigitValue(text[0]) + DigitValue(text[1])
  {
    assert text[..1][..0] == [];
    assert Number(text[..1]) == DigitValue(text[0]);
  }

  lemma NumberOfPairs(high: string, low: string)
    requires |low| == 2 && AllDigits(high) && AllDigits(low)
    ensures AllDigits(high + low) && Number(high + low) == 100 * Number(high) + Number(low)
  {
    var s := high + low;
    assert s[..|s| - 1][..|s| - 2] == high;
    assert s[..|s| - 1][|s| - 2] == low[0] && s[|s| - 1] == low[1];
    assert Number(s[..|s| - 1]) == 10 * Number(high) + DigitValue(low[0]);
    NumberOfPair(low);
  }

  lemma Pad2OfDigits(text: string)
    requires |text| == 2 && AllDigits(text)
    ensures Number(text) < 100 && Pad2(Number(text)) == text
  {
    NumberOfPair(text);
  }

  lemma Pad4OfDigits(text: string)
    requires |text| == 4 && AllDigits(text)
    ensures Number(text) < 10000 && Pad4(Number(text)) == text
  {
    var high, low := text[..2], text[2..];
    assert text == high + low;
    NumberOfPairs(high, low);
    Pad2OfDigits(high);
    Pad2OfDigits(low);
    var h, l := Number(high), Number(low);
    DivideHundreds(h, l);
    assert Pad4(Number(text)) == Pad2(h) + Pad2(l);
  }

  lemma DivideHundreds(h: int, l: int)
    requires 0 <= l < 100
    ensures (100 * h + l) / 100 == h && (100 * h + l) % 100 == l
  {
  }

  /** The width of a directive's zero-padded text. */
  function Width(d: Directive): nat
    requires !d.Literal?
  {
    if d == Year then 4 else 2
  }

  function PadFor(d: Directive, v: int): (text: string)
    requires !d.Literal? && 0 <= v < (if d == Year then 10000 else 100)
    ensures |text| == Width(d) && AllDigits(text) && Number(text) == v
  {
    if d == Year then Pad4(v) else Pad2(v)
  }

  /** Values that `fmt` can render: one per directive, each within the
      directive's width and accepted by its pattern once padded. */
  predicate Fits(fmt: seq<Directive>, values: seq<int>)
    decreases |fmt|
  {
    if fmt == [] then values == []
    else if fmt[0].Literal? then Fits(fmt[1..], values)
    else
      && values != []
      && 0 <= values[0] < (if fmt[0] == Year then 10000 else 100)
      && FieldText(fmt[0], PadFor(fmt[0], values[0]))
      && Fits(fmt[1..], values[1..])
  }

  /** strftime with the same format: literals as written, every field
      zero-padded to its width. */
  function Render(fmt: seq<Directive>, values: seq<int>): string
    requires Fits(fmt, values)
    decreases |fmt|
  {
    if fmt == [] then []
    else if fmt[0].Literal? then [fmt[0].c] + Render(fmt[1..], values)
    else PadFor(fmt[0], values[0]) + Render(fmt[1..], values[1..])
  }

  /** Scanning rendered text gives back the values. */
  lemma {:induction false} ScanRender(fmt: seq<Directive>, values: seq<int>)
    requires Fits(fmt, values)
    ensures Scan(Render(fmt, values), fmt) == Some(values)
    decreases |fmt|
  {
    var s := Render(fmt, values);
    if fmt == [] {
    } else if fmt[0].Literal? {
      ScanRender(fmt[1..], values);
      assert s[1..] == Render(fmt[1..], values);
    } else {
      var d := fmt[0];
      var w := Width(d);
      ScanRender(fmt[1..], values[1..]);
      assert s[..w] == PadFor(d, values[0]);
      assert s[w..] == Render(fmt[1..], values[1..]);
      assert FieldValue(d, s[..w]) == values[0];
      assert [values[0]] + values[1..] == values;
      assert TakeField(s, fmt, w) == Some(values);
    }
  }

  /** Text with every field written at its full width in digits and every
      literal exactly as in the format. */
  predicate Padded(fmt: seq<Directive>, s: string)
    decreases |fmt|
  {
    if fmt == [] then s == []
    else if fmt[0].Literal? then s != [] && s[0] == fmt[0].c && Padded(fmt[1..], s[1..])
    else |s| >= Width(fmt[0]) && AllDigits(s[..Width(fmt[0])]) && Padded(fmt[1..], s[Width(fmt[0])..])
  }

  /** Every directive is followed by a literal that is not a digit, as in
      IsoFormat; this is what makes the field boundaries unambiguous. */
  predicate Separated(fmt: seq<Directive>) {
    forall k | 0 <= k < |fmt| && !fmt[k].Literal? ::
      k + 1 < |fmt| && fmt[k + 1].Literal? && !IsDigit(fmt[k + 1].c)
  }

  /** On fully padded text a successful scan loses nothing: rendering the
      values gives back the text. */
  lemma {:induction false} RenderScan(fmt: seq<Directive>, s: string)
    requires Separated(fmt) && Padded(fmt, s) && Scan(s, fmt).Some?
    ensures Fits(fmt, Scan(s, fmt).value) && Render(fmt, Scan(s, fmt).value) == s
    decreases |fmt|
  {
    if fmt == [] {
    } else {
      assert Separated(fmt[1..]) by {
        forall k | 0 <= k < |fmt[1..]| && !fmt[1..][k].Literal?
          ensures k + 1 < |fmt[1..]| && fmt[1..][k + 1].Literal? && !IsDigit(fmt[1..][k + 1].c)
        {
          assert fmt[1..][k] == fmt[k + 1];
        }
      }
      if fmt[0].Literal? {
        RenderScan(fmt[1..], s[1..]);
        assert s == [s[0]] + s[1..];
      } else {
        var d := fmt[0];
        var w := Width(d);
        if d != Year {
          assert fmt[1].Literal? && !IsDigit(fmt[1].c);
          assert Scan(s[1..], fmt[1..]) == None by {
            assert s[1..][0] == s[..2][1];
          }
          assert TakeField(s, fmt, 1) == None;
        }
        assert TakeField(s, fmt, w).Some?;
        var rest := Scan(s[w..], fmt[1..]).value;
        RenderScan(fmt[1..], s[w..]);
        if d == Year {
          Pad4OfDigits(s[..w]);
        } else {
          Pad2OfDigits(s[..w]);
        }
        assert Scan(s, fmt).value == [Number(s[..w])] + rest;
        assert s == s[..w] + s[w..];
      }
    }
  }

  lemma IsoFormatSeparated()
    ensures Separated(IsoFormat)
  {
  }

  /** The six values of a datetime, in the order of IsoFormat. */
  function IsoValues(t: DateTime): seq<int> {
    [t.year, t.month, t.day, t.hour, t.minute, t.second]
  }

  /** The zero-padded text of a value passes the directive's alternatives
      exactly when the value is in the directive's range. */
  lemma PaddedFieldAccepted(d: Directive, v: int)
    requires !d.Literal? && 0 <= v < (if d == Year then 10000 else 100)
    ensures FieldText(d, PadFor(d, v)) <==>
      match d
      case Month => 1 <= v <= 12
      case Day => 1 <= v <= 31
      case Hour => v <= 23
      case Minute => v <= 59
      case Second => v <= 61
      case _ => true
  {
  }

  lemma FitsLiteral(c: char, fmt: seq<Directive>, values: seq<int>)
    requires Fits(fmt, values)
    ensures Fits([Literal(c)] + fmt, values)
  {
    assert ([Literal(c)] + fmt)[1..] == fmt;
  }

  lemma FitsField(d: Directive, v: int, fmt: seq<Directive>, values: seq<int>)
    requires !d.Literal? && 0 <= v < (if d == Year then 10000 else 100)
    requires FieldText(d, PadFor(d, v)) && Fits(fmt, values)
    ensures Fits([d] + fmt, [v] + values)
  {
    assert ([d] + fmt)[1..] == fmt && ([v] + values)[1..] == values;
  }

  lemma IsoFits(t: DateTime)
    requires Valid(t)
    ensures Fits(IsoFormat, IsoValues(t))
  {
    PaddedFieldAccepted(Year, t.year);
    PaddedFieldAccepted(Month, t.month);
    PaddedFieldAccepted(Day, t.day);
    PaddedFieldAccepted(Hour, t.hour);
    PaddedFieldAccepted(Minute, t.minute);
    PaddedFieldAccepted(Second, t.second);
    var f0: seq<Directive> := [];
    var v0: seq<int> := [];
    FitsLiteral('Z', f0, v0);
    var f1 := [Literal('Z')] + f0;
    FitsField(Second, t.second, f1, v0);
    var f2, v2 := [Second] + f1, [t.second] + v0;
    FitsLiteral(':', f2, v2);
    var f3 := [Literal(':')] + f2;
    FitsField(Minute, t.minute, f3, v2);
    var f4, v4 := [Minute] + f3, [t.minute] + v2;
    FitsLiteral(':', f4, v4);
    var f5 := [Literal(':')] + f4;
    FitsField(Hour, t.hour, f5, v4);
    var f6, v6 := [Hour] + f5, [t.hour] + v4;
    FitsLiteral('T', f6, v6);
    var f7 := [Literal('T')] + f6;
    FitsField(Day, t.day, f7, v6);
    var f8, v8 := [Day] + f7, [t.day] + v6;
    FitsLiteral('-', f8, v8);
    var f9 := [Literal('-')] + f8;
    FitsField(Month, t.month, f9, v8);
    var f10, v10 := [Month] + f9, [t.month] + v8;
    FitsLiteral('-', f10, v10);
    var f11 := [Literal('-')] + f10;
    FitsField(Year, t.year, f11, v10);
    IsoFormatSpelled();
    IsoValuesSpelled(t);
  }

  lemma IsoValuesSpelled(t: DateTime)
    ensures IsoValues(t) == [t.year] + ([t.month] + ([t.day] + ([t.hour] + ([t.minute] + ([t.second] + [])))))
  {
  }

  lemma IsoFormatSpelled()
    ensures IsoFormat == [Year] + ([Literal('-')] + ([Month] + ([Literal('-')] + ([Day] + ([Literal('T')]
      + ([Hour] + ([Literal(':')] + ([Minute] + ([Literal(':')] + ([Second] + ([Literal('Z')] + [])))))))))))
  {
  }

  /** The canonical `YYYY-MM-DDTHH:MM:SSZ` text of a datetime. */
  function FormatIso(t: DateTime): string
    requires Valid(t)
  {
    IsoFits(t);
    Render(IsoFormat, IsoValues(t))
  }

  /** Every datetime iso_to_dt can produce is recovered from its canonical
      text, and that text has the canonical shape. */
  lemma ParseFormat(t: DateTime)
    requires Valid(t) && t.microsecond == 0
    ensures Padded(IsoFormat, FormatIso(t))
    ensures ParseIso(FormatIso(t)) == Some(t)
  {
    IsoFits(t);
    ScanRender(IsoFormat, IsoValues(t));
    RenderPadded(IsoFormat, IsoValues(t));
  }

  /** Text of the format's shape with every field inside its pattern's
      range still fails when the date or datetime constructor rejects the fields
      (the 29th of February of a common year, second 60 or 61, year 0): such
      text parses exactly when its fields form a valid datetime. */
  lemma ConstructorCheck(values: seq<int>)
    requires Fits(IsoFormat, values)
    ensures |values| == 6
    ensures var t := DateTime(values[0], values[1], values[2], values[3], values[4], values[5], 0);
      ParseIso(Render(IsoFormat, values)) == if Valid(t) then Some(t) else None
  {
    ScanRender(IsoFormat, values);
    IsoFormatFields();
  }

  lemma {:induction false} RenderPadded(fmt: seq<Directive>, values: seq<int>)
    requires Fits(fmt, values)
    ensures Padded(fmt, Render(fmt, values))
    decreases |fmt|
  {
    var s := Render(fmt, values);
    if fmt == [] {
    } else if fmt[0].Literal? {
      RenderPadded(fmt[1..], values);
      assert s[1..] == Render(fmt[1..], values);
    } else {
      RenderPadded(fmt[1..], values[1..]);
      assert s[..Width(fmt[0])] == PadFor(fmt[0], values[0]);
      assert s[Width(fmt[0])..] == Render(fmt[1..], values[1..]);
    }
  }

  /** On text of the canonical shape, a successful parse loses nothing:
      formatting the datetime gives back the text. */
  lemma FormatParse(s: string)
    requires Padded(IsoFormat, s) && ParseIso(s).Some?
    ensures FormatIso(ParseIso(s).value) == s
  {
    IsoFormatSeparated();
    RenderScan(IsoFormat, s);
    ParsedValues(s);
  }

  lemma ParsedValues(s: string)
    requires ParseIso(s).Some?
    ensures Scan(s, IsoFormat).Some? && IsoValues(ParseIso(s).value) == Scan(s, IsoFormat).value
  {
    var v := Scan(s, IsoFormat).value;
    assert |v| == 6 by {
      IsoFormatFields();
    }
    SixValues(v);
  }

  lemma SixValues(v: seq<int>)
    requires |v| == 6
    ensures IsoValues(DateTime(v[0], v[1], v[2], v[3], v[4], v[5], 0)) == v
  {
  }
}

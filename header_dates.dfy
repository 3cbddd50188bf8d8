/** Header-to-date resolution: `excel_serial_to_date` (absence.py:39-47)
    and `parse_header_to_date` (absence.py:49-69). */
module HeaderDates {
  import opened Wrappers
  import opened Text
  import opened Dates

  // ---------------------------------------------------------------------
  // Spreadsheet serial numbers
  // ---------------------------------------------------------------------

  /** Spreadsheet day zero, 1899-12-30. */
  const SerialEpoch: CivilDate := Date(1899, 12, 30)

  /** Ordinal of 1899-12-30. */
  const SerialEpochOrdinal := 693594

  lemma SerialEpochOrdinalIsCorrect()
    ensures Ordinal(SerialEpoch) == SerialEpochOrdinal
  {
  }

  /** date(1899, 12, 30) + timedelta(days=k): None where Python raises
      OverflowError, i.e. where the sum leaves years 1..9999. */
  function SerialDayToDate(k: int): (r: Option<CivilDate>)
    ensures r.Some? <==> 1 <= SerialEpochOrdinal + k <= MaxOrdinal
    ensures r.Some? ==> Ordinal(r.value) == Ordinal(SerialEpoch) + k
  {
    if 1 <= SerialEpochOrdinal + k <= MaxOrdinal then Some(FromOrdinal(SerialEpochOrdinal + k))
    else None
  }

  /** A string Python's float() accepts, in the plain decimal form
      [sign] digits [. digits] with at least one digit. */
  datatype Decimal = Decimal(negative: bool, whole: string, fraction: string)

  function SplitSign(s: string): (bool, string)
  {
    if s != [] && (s[0] == '-' || s[0] == '+') then (s[0] == '-', s[1..]) else (false, s)
  }

  function ParseDecimal(s: string): (r: Option<Decimal>)
    ensures r.Some? ==> AllDigits(r.value.whole) && AllDigits(r.value.fraction)
    ensures r.Some? ==> |r.value.whole| + |r.value.fraction| > 0
  {
    var (neg, body) := SplitSign(s);
    var parts := SplitOn(body, '.');
    if |parts| == 1 && parts[0] != [] && AllDigits(parts[0]) then Some(Decimal(neg, parts[0], ""))
    else if |parts| == 2 && |parts[0]| + |parts[1]| > 0 && AllDigits(parts[0]) && AllDigits(parts[1])
    then Some(Decimal(neg, parts[0], parts[1]))
    else None
  }

  /** The number a plain decimal text denotes. */
  function DecimalValue(x: Decimal): real
    requires AllDigits(x.whole) && AllDigits(x.fraction)
  {
    var v := DigitsValue(x.whole) as real + DigitsValue(x.fraction) as real / Pow10(|x.fraction|) as real;
    if x.negative then -v else v
  }

  /** math.floor of the decimal's value. */
  function Floor(x: Decimal): (k: int)
    requires AllDigits(x.whole) && AllDigits(x.fraction)
    ensures k as real <= DecimalValue(x) < k as real + 1.0
  {
    FractionBelowOne(x.fraction);
    var w: int := DigitsValue(x.whole);
    if !x.negative then w
    else if DigitsValue(x.fraction) == 0 then -w
    else -w - 1
  }

  /** The digits after the point add less than one, and nothing only
      when they are all zero. */
  lemma FractionBelowOne(s: string)
    requires AllDigits(s)
    ensures var f := DigitsValue(s) as real / Pow10(|s|) as real;
      0.0 <= f < 1.0 && (f == 0.0 <==> DigitsValue(s) == 0)
  {
    DigitsBelow(s);
    var a, p := DigitsValue(s) as real, Pow10(|s|) as real;
    QuotientBelowOne(a, p);
  }

  lemma QuotientBelowOne(a: real, p: real)
    requires 0.0 <= a < p
    ensures 0.0 <= a / p < 1.0 && (a / p == 0.0 <==> a == 0.0)
  {
    var f := a / p;
    assert f * p == a;
    if f >= 1.0 {
      ScaleMonotone(1.0, f, p);
      assert false;
    }
    if f == 0.0 {
      assert a == 0.0 * p;
    }
  }

  lemma ScaleMonotone(x: real, y: real, p: real)
    requires x <= y && 0.0 <= p
    ensures x * p <= y * p
  {
    assert y * p - x * p == (y - x) * p;
  }

  lemma {:induction false} DigitsBelow(s: string)
    requires AllDigits(s)
    ensures DigitsValue(s) < Pow10(|s|)
  {
    if s != [] {
      DigitsBelow(s[..|s| - 1]);
    }
  }

  /** excel_serial_to_date applied to a header string: float(), floor,
      then the day offset from 1899-12-30; any failure gives None. */
  function ExcelSerialToDate(s: string): (r: Option<CivilDate>)
    ensures r.Some? ==> ParseDecimal(s).Some?
    ensures ParseDecimal(s).Some? ==> r == SerialDayToDate(Floor(ParseDecimal(s).value))
  {
    match ParseDecimal(s)
    case None => None
    case Some(x) => SerialDayToDate(Floor(x))
  }

  // ---------------------------------------------------------------------
  // ISO_DATE_RE and pandas' ISO parse
  // ---------------------------------------------------------------------

  predicate DigitsAt(s: string, i: nat, n: nat)
  {
    i + n <= |s| && AllDigits(s[i..i + n])
  }

  /** ISO_DATE_RE: ^\d{4}-\d{2}-\d{2}(?:[ T]\d{2}:\d{2}:\d{2})?$ */
  predicate IsoShape(s: string)
  {
    && (|s| == 10 || |s| == 19)
    && DigitsAt(s, 0, 4) && s[4] == '-' && DigitsAt(s, 5, 2) && s[7] == '-' && DigitsAt(s, 8, 2)
    && (|s| == 19 ==>
          (s[10] == ' ' || s[10] == 'T') && DigitsAt(s, 11, 2) && s[13] == ':'
          && DigitsAt(s, 14, 2) && s[16] == ':' && DigitsAt(s, 17, 2))
  }

  /** pd.Timestamp.min and pd.Timestamp.max, to the second: a datetime is
      representable when it lies between 1677-09-21 00:12:44 and
      2262-04-11 23:47:16. */
  predicate InTimestampRange(d: Date, secondOfDay: int)
  {
    && (AtMost(Date(1677, 9, 22), d) || (d == Date(1677, 9, 21) && secondOfDay >= 764))
    && (AtMost(d, Date(2262, 4, 10)) || (d == Date(2262, 4, 11) && secondOfDay <= 85636))
  }

  /** pd.to_datetime(s, dayfirst=False, errors="coerce") on a string that
      matches ISO_DATE_RE: the date when the fields form a valid date and
      time inside the Timestamp range, NaT (None) otherwise. */
  function IsoParse(s: string): (r: Option<CivilDate>)
    requires IsoShape(s)
    ensures r.Some? ==> r.value == Date(DigitsValue(s[0..4]), DigitsValue(s[5..7]), DigitsValue(s[8..10]))
    ensures var d := Date(DigitsValue(s[0..4]), DigitsValue(s[5..7]), DigitsValue(s[8..10]));
      var (h, mi, sec) := if |s| == 19 then (DigitsValue(s[11..13]), DigitsValue(s[14..16]), DigitsValue(s[17..19]))
                          else (0, 0, 0);
      r.Some? <== ValidDate(d) && h < 24 && mi < 60 && sec < 60 && InTimestampRange(d, h * 3600 + mi * 60 + sec)
  {
    var d := Date(DigitsValue(s[0..4]), DigitsValue(s[5..7]), DigitsValue(s[8..10]));
    var (h, mi, sec) := if |s| == 19 then (DigitsValue(s[11..13]), DigitsValue(s[14..16]), DigitsValue(s[17..19]))
                        else (0, 0, 0);
    if ValidDate(d) && h < 24 && mi < 60 && sec < 60 && InTimestampRange(d, h * 3600 + mi * 60 + sec)
    then var c: CivilDate := d; Some(c)
    else None
  }

  // ---------------------------------------------------------------------
  // The four strptime formats
  // ---------------------------------------------------------------------

  /** Field order of a strptime format. */
  datatype Layout = YearMonthDay | DayMonthYear | MonthDayYear

  datatype Format = Format(layout: Layout, sep: char)

  /** "%Y-%m-%d", "%d/%m/%Y", "%d-%m-%Y", "%m/%d/%Y", in the order tried. */
  const Formats: seq<Format> := [
    Format(YearMonthDay, '-'), Format(DayMonthYear, '/'),
    Format(DayMonthYear, '-'), Format(MonthDayYear, '/')]

  /** %Y: exactly four digits. */
  predicate YearToken(t: string)
  {
    |t| == 4 && AllDigits(t)
  }

  /** %m: 1[0-2] | 0[1-9] | [1-9] */
  predicate MonthToken(t: string)
  {
    || (|t| == 1 && '1' <= t[0] <= '9')
    || (|t| == 2 && t[0] == '0' && '1' <= t[1] <= '9')
    || (|t| == 2 && t[0] == '1' && '0' <= t[1] <= '2')
  }

  /** %d: 3[01] | [12]\d | 0[1-9] | [1-9] | " "[1-9] */
  predicate DayToken(t: string)
  {
    || (|t| == 1 && '1' <= t[0] <= '9')
    || (|t| == 2 && (t[0] == '0' || t[0] == ' ') && '1' <= t[1] <= '9')
    || (|t| == 2 && (t[0] == '1' || t[0] == '2') && IsDigit(t[1]))
    || (|t| == 2 && t[0] == '3' && (t[1] == '0' || t[1] == '1'))
  }

  /** Value of a %m or %d token (a leading space counts as nothing). */
  function SmallValue(t: string): (v: nat)
    requires MonthToken(t) || DayToken(t)
    ensures 1 <= v <= 31
    ensures MonthToken(t) ==> v <= 12
  {
    if |t| == 1 then DigitValue(t[0])
    else if t[0] == ' ' then DigitValue(t[1])
    else 10 * DigitValue(t[0]) + DigitValue(t[1])
  }

  /** datetime.strptime(s, fmt).date(): the pattern must cover the whole
      string (no "unconverted data remains") and the fields must form a
      valid date. The fields hold no separator character, so the string
      matches exactly when splitting it on the separator gives three
      tokens of the right shapes. */
  function Strptime(s: string, f: Format): (r: Option<CivilDate>)
    ensures r.Some? ==> |SplitOn(s, f.sep)| == 3
  {
    var parts := SplitOn(s, f.sep);
    if |parts| != 3 then None
    else
      var (yt, mt, dt) := match f.layout
        case YearMonthDay => (parts[0], parts[1], parts[2])
        case DayMonthYear => (parts[2], parts[1], parts[0])
        case MonthDayYear => (parts[2], parts[0], parts[1]);
      if YearToken(yt) && MonthToken(mt) && DayToken(dt) then
        var d := Date(DigitsValue(yt), SmallValue(mt), SmallValue(dt));
        if ValidDate(d) then var c: CivilDate := d; Some(c) else None
      else None
  }

  /** The loop over the formats: the first one that parses wins. */
  function FirstFormat(s: string, fs: seq<Format>): (r: Option<CivilDate>)
    ensures r.None? <==> forall i :: 0 <= i < |fs| ==> Strptime(s, fs[i]).None?
  {
    if fs == [] then None
    else
      match Strptime(s, fs[0])
      case Some(d) => Some(d)
      case None =>
        assert forall i :: 1 <= i < |fs| ==> fs[i] == fs[1..][i - 1];
        FirstFormat(s, fs[1..])
  }

  /** The format that decides is the first one that accepts the string. */
  lemma {:induction false} FirstFormatPicksFirst(s: string, fs: seq<Format>, i: nat)
    requires i < |fs| && Strptime(s, fs[i]).Some?
    requires forall j :: 0 <= j < i ==> Strptime(s, fs[j]).None?
    ensures FirstFormat(s, fs) == Strptime(s, fs[i])
  {
    if i > 0 {
      assert forall j :: 0 <= j < i - 1 ==> fs[1..][j] == fs[j + 1];
      FirstFormatPicksFirst(s, fs[1..], i - 1);
    }
  }

  // ---------------------------------------------------------------------
  // parse_header_to_date
  // ---------------------------------------------------------------------

  /** parse_header_to_date(h) for a column label h. `loose` stands for
      pd.to_datetime(s, dayfirst=True, errors="coerce"), a library
      heuristic the model leaves uninterpreted. */
  function ParseHeaderToDate(h: string, loose: string -> Option<CivilDate>): (r: Option<CivilDate>)
  {
    var s := Strip(h);
    if IsoShape(s) && IsoParse(s).Some? then IsoParse(s)
    else
      match FirstFormat(s, Formats)
      case Some(d) => Some(d)
      case None =>
        match loose(s)
        case Some(d) => Some(d)
        case None => ExcelSerialToDate(s)
  }

  /** The resolution order: ISO first, then the formats in order, then the
      permissive parse, then the serial number; the first success wins. */
  lemma ResolutionOrder(h: string, loose: string -> Option<CivilDate>)
    ensures var s := Strip(h);
      && (IsoShape(s) && IsoParse(s).Some? ==> ParseHeaderToDate(h, loose) == IsoParse(s))
      && (!(IsoShape(s) && IsoParse(s).Some?) ==>
            forall i :: 0 <= i < |Formats| && Strptime(s, Formats[i]).Some?
                        && (forall j :: 0 <= j < i ==> Strptime(s, Formats[j]).None?)
                        ==> ParseHeaderToDate(h, loose) == Strptime(s, Formats[i]))
      && (!(IsoShape(s) && IsoParse(s).Some?) && (forall i :: 0 <= i < |Formats| ==> Strptime(s, Formats[i]).None?) ==>
            ParseHeaderToDate(h, loose) == (if loose(s).Some? then loose(s) else ExcelSerialToDate(s)))
  {
    var s := Strip(h);
    forall i | 0 <= i < |Formats| && Strptime(s, Formats[i]).Some?
               && (forall j :: 0 <= j < i ==> Strptime(s, Formats[j]).None?)
      ensures FirstFormat(s, Formats) == Strptime(s, Formats[i])
    {
      FirstFormatPicksFirst(s, Formats, i);
    }
  }

  // ---------------------------------------------------------------------
  // Round trips: a rendered date resolves back to itself
  // ---------------------------------------------------------------------

  /** str() of a datetime or pandas Timestamp with no fraction of a
      second: "YYYY-MM-DD HH:MM:SS". */
  function DatetimeText(d: CivilDate, hour: nat, minute: nat, second: nat): (s: string)
    requires hour < 24 && minute < 60 && second < 60
    ensures |s| == 19
  {
    ZeroPadWidth(hour, 2);
    ZeroPadWidth(minute, 2);
    ZeroPadWidth(second, 2);
    IsoText(d) + " " + ZeroPad(hour, 2) + ":" + ZeroPad(minute, 2) + ":" + ZeroPad(second, 2)
  }

  /** str() of a date read as a midnight Timestamp: "YYYY-MM-DD 00:00:00". */
  function TimestampText(d: CivilDate): (s: string)
    ensures |s| == 19
  {
    DatetimeText(d, 0, 0, 0)
  }

  /** The fields of YYYY-MM-DD, by position. */
  lemma IsoTextFields(d: CivilDate, s: string)
    requires s == IsoText(d)
    ensures |s| == 10 && s[4] == '-' && s[7] == '-'
    ensures s[0..4] == ZeroPad(d.year as nat, 4) && YearToken(s[0..4])
    ensures s[5..7] == ZeroPad(d.month as nat, 2) && s[8..10] == ZeroPad(d.day as nat, 2)
    ensures DigitsAt(s, 0, 4) && DigitsAt(s, 5, 2) && DigitsAt(s, 8, 2)
    ensures DigitsValue(s[0..4]) == d.year && DigitsValue(s[5..7]) == d.month && DigitsValue(s[8..10]) == d.day
    ensures IsDigit(s[0]) && IsDigit(s[9])
  {
    var y, m, dd := ZeroPad(d.year as nat, 4), ZeroPad(d.month as nat, 2), ZeroPad(d.day as nat, 2);
    ZeroPadWidth(d.year as nat, 4);
    ZeroPadWidth(d.month as nat, 2);
    ZeroPadWidth(d.day as nat, 2);
    FieldsAt(y, m, dd, s);
  }

  /** Where the fields sit in "YYYY-MM-DD". */
  lemma FieldsAt(y: string, m: string, dd: string, s: string)
    requires |y| == 4 && |m| == 2 && |dd| == 2
    requires s == y + "-" + m + "-" + dd
    ensures |s| == 10 && s[0..4] == y && s[4] == '-' && s[5..7] == m && s[7] == '-' && s[8..10] == dd
    ensures s[0] == y[0] && s[9] == dd[1]
  {
  }

  /** Every valid date rendered as YYYY-MM-DD resolves to itself, whatever
      the permissive parser does: through the ISO step inside the
      Timestamp range, through "%Y-%m-%d" outside it. */
  lemma IsoTextResolves(d: CivilDate, loose: string -> Option<CivilDate>)
    ensures ParseHeaderToDate(IsoText(d), loose) == Some(d)
  {
    IsoTextShape(d);
    StrptimeOfIsoText(d);
    ResolvedEarly(IsoText(d), loose, d);
  }

  /** A stripped label resolves to d when pandas' ISO parse gives d, or,
      that failing, when "%Y-%m-%d" gives d. */
  lemma ResolvedEarly(s: string, loose: string -> Option<CivilDate>, d: CivilDate)
    requires Strip(s) == s
    ensures IsoShape(s) && IsoParse(s) == Some(d) ==> ParseHeaderToDate(s, loose) == Some(d)
    ensures !(IsoShape(s) && IsoParse(s).Some?) && Strptime(s, Formats[0]) == Some(d)
            ==> ParseHeaderToDate(s, loose) == Some(d)
  {
    ParseStripped(s, loose);
    if Strptime(s, Formats[0]).Some? {
      FirstFormatPicksFirst(s, Formats, 0);
    }
  }

  /** YYYY-MM-DD has ISO_DATE_RE's shape, survives strip(), and pandas'
      ISO parse can only give back the date it renders. */
  lemma IsoTextShape(d: CivilDate)
    ensures Strip(IsoText(d)) == IsoText(d) && IsoShape(IsoText(d))
    ensures IsoParse(IsoText(d)).Some? ==> IsoParse(IsoText(d)).value == d
  {
    var s := IsoText(d);
    IsoTextFields(d, s);
    StripUnchanged(s);
  }

  /** The resolution of a label that strip() leaves alone. */
  lemma ParseStripped(s: string, loose: string -> Option<CivilDate>)
    requires Strip(s) == s
    ensures ParseHeaderToDate(s, loose) ==
      if IsoShape(s) && IsoParse(s).Some? then IsoParse(s)
      else if FirstFormat(s, Formats).Some? then FirstFormat(s, Formats)
      else if loose(s).Some? then loose(s)
      else ExcelSerialToDate(s)
  {
  }

  lemma NoSepInDigits(t: string, sep: char)
    requires AllDigits(t) && !IsDigit(sep)
    ensures sep !in t
  {
  }

  /** The text a format reads, written out: the year, month and day
      tokens joined by the separator in the format's field order. */
  function Arrange(f: Format, y: string, m: string, dd: string): string
  {
    var sep := [f.sep];
    match f.layout
    case YearMonthDay => y + (sep + (m + (sep + dd)))
    case DayMonthYear => dd + (sep + (m + (sep + y)))
    case MonthDayYear => m + (sep + (dd + (sep + y)))
  }

  /** strptime reads each token as the field its format puts there: the
      first piece of "%d/%m/%Y" and "%d-%m-%Y" is the day, the first of
      "%m/%d/%Y" the month. Well-formed tokens of a valid date give that
      date; anything else gives None. */
  lemma StrptimeReads(f: Format, y: string, m: string, dd: string)
    requires f.sep !in y && f.sep !in m && f.sep !in dd
    ensures Strptime(Arrange(f, y, m, dd), f) ==
      if YearToken(y) && MonthToken(m) && DayToken(dd)
         && ValidDate(Date(DigitsValue(y), SmallValue(m), SmallValue(dd)))
      then Some(Date(DigitsValue(y), SmallValue(m), SmallValue(dd)))
      else None
  {
    match f.layout
    case YearMonthDay => SplitThree(y, m, dd, f.sep);
    case DayMonthYear => SplitThree(dd, m, y, f.sep);
    case MonthDayYear => SplitThree(m, dd, y, f.sep);
  }

  /** Each of the four formats reads back any date written in its own
      field order with zero-padded fields. */
  lemma StrptimeRoundTrip(d: CivilDate, f: Format)
    requires f in Formats
    ensures Strptime(Arrange(f, ZeroPad(d.year as nat, 4), ZeroPad(d.month as nat, 2), ZeroPad(d.day as nat, 2)), f) == Some(d)
  {
    var y, m, dd := ZeroPad(d.year as nat, 4), ZeroPad(d.month as nat, 2), ZeroPad(d.day as nat, 2);
    ZeroPadWidth(d.year as nat, 4);
    NoSepInDigits(y, f.sep);
    NoSepInDigits(m, f.sep);
    NoSepInDigits(dd, f.sep);
    MonthTokenOf(d.month as nat);
    DayTokenOf(d.day as nat);
    StrptimeReads(f, y, m, dd);
  }

  /** "%Y-%m-%d" reads back every date rendered as YYYY-MM-DD. */
  lemma StrptimeOfIsoText(d: CivilDate)
    ensures Strptime(IsoText(d), Formats[0]) == Some(d)
  {
    var y, m, dd := ZeroPad(d.year as nat, 4), ZeroPad(d.month as nat, 2), ZeroPad(d.day as nat, 2);
    assert IsoText(d) == Arrange(Formats[0], y, m, dd);
    StrptimeRoundTrip(d, Formats[0]);
  }

  /** A header cell holding a datetime, rendered by str() as
      "YYYY-MM-DD HH:MM:SS", resolves to its date when it lies in the
      Timestamp range. */
  lemma DatetimeTextResolves(d: CivilDate, hour: nat, minute: nat, second: nat, loose: string -> Option<CivilDate>)
    requires hour < 24 && minute < 60 && second < 60
    requires InTimestampRange(d, hour * 3600 + minute * 60 + second)
    ensures ParseHeaderToDate(DatetimeText(d, hour, minute, second), loose) == Some(d)
  {
    DatetimeTextShape(d, hour, minute, second);
    ResolvedEarly(DatetimeText(d, hour, minute, second), loose, d);
  }

  /** "YYYY-MM-DD HH:MM:SS" has ISO_DATE_RE's shape, survives strip(), and
      pandas reads it back to its date inside the Timestamp range. */
  lemma DatetimeTextShape(d: CivilDate, hour: nat, minute: nat, second: nat)
    requires hour < 24 && minute < 60 && second < 60
    requires InTimestampRange(d, hour * 3600 + minute * 60 + second)
    ensures var s := DatetimeText(d, hour, minute, second);
      Strip(s) == s && IsoShape(s) && IsoParse(s) == Some(d)
  {
    var s := DatetimeText(d, hour, minute, second);
    DatetimeFields(d, hour, minute, second, s);
    StripUnchanged(s);
    assert IsoShape(s);
  }

  /** The fields of "YYYY-MM-DD HH:MM:SS", by position, with their values. */
  lemma DatetimeFields(d: CivilDate, hour: nat, minute: nat, second: nat, s: string)
    requires hour < 24 && minute < 60 && second < 60
    requires s == DatetimeText(d, hour, minute, second)
    ensures |s| == 19 && s[4] == '-' && s[7] == '-' && s[10] == ' ' && s[13] == ':' && s[16] == ':'
    ensures DigitsAt(s, 0, 4) && DigitsAt(s, 5, 2) && DigitsAt(s, 8, 2)
    ensures DigitsAt(s, 11, 2) && DigitsAt(s, 14, 2) && DigitsAt(s, 17, 2)
    ensures DigitsValue(s[0..4]) == d.year && DigitsValue(s[5..7]) == d.month && DigitsValue(s[8..10]) == d.day
    ensures DigitsValue(s[11..13]) == hour && DigitsValue(s[14..16]) == minute && DigitsValue(s[17..19]) == second
    ensures IsDigit(s[0]) && IsDigit(s[18])
  {
    var p := IsoText(d);
    var hh, mm, ss := ZeroPad(hour, 2), ZeroPad(minute, 2), ZeroPad(second, 2);
    ZeroPadWidth(hour, 2);
    ZeroPadWidth(minute, 2);
    ZeroPadWidth(second, 2);
    IsoTextFields(d, p);
    ClockAt(p, hh, mm, ss, s);
  }

  /** Where the clock fields sit in "YYYY-MM-DD HH:MM:SS". */
  lemma ClockAt(p: string, hh: string, mm: string, ss: string, s: string)
    requires |p| == 10 && |hh| == 2 && |mm| == 2 && |ss| == 2
    requires s == p + " " + hh + ":" + mm + ":" + ss
    ensures |s| == 19 && s[..10] == p && s[10] == ' ' && s[13] == ':' && s[16] == ':'
    ensures s[0..4] == p[0..4] && s[4] == p[4] && s[5..7] == p[5..7] && s[7] == p[7] && s[8..10] == p[8..10]
    ensures s[0] == p[0] && s[11..13] == hh && s[14..16] == mm && s[17..19] == ss && s[18] == ss[1]
  {
  }

  /** A date cell of the header row, rendered as a midnight Timestamp,
      resolves to its date when it lies in the Timestamp range. */
  lemma TimestampTextResolves(d: CivilDate, loose: string -> Option<CivilDate>)
    requires InTimestampRange(d, 0)
    ensures ParseHeaderToDate(TimestampText(d), loose) == Some(d)
  {
    DatetimeTextResolves(d, 0, 0, 0, loose);
  }

  lemma SplitThree(a: string, b: string, c: string, sep: char)
    requires sep !in a && sep !in b && sep !in c
    ensures SplitOn(a + ([sep] + (b + ([sep] + c))), sep) == [a, b, c]
  {
    SplitNoSep(c, sep);
    var r1 := [sep] + c;
    assert r1[1..] == c;
    SplitPrefix(b, r1, sep, [c]);
    var r2 := [sep] + (b + r1);
    assert r2[1..] == b + r1;
    SplitPrefix(a, r2, sep, [b, c]);
  }

  lemma {:induction false} SplitNoSep(a: string, sep: char)
    requires sep !in a
    ensures SplitOn(a, sep) == [a]
  {
    if a != [] {
      assert a[0] != sep;
      SplitNoSep(a[1..], sep);
      assert [a[0]] + a[1..] == a;
    }
  }

  lemma {:induction false} SplitPrefix(a: string, rest: string, sep: char, tail: seq<string>)
    requires sep !in a && rest != [] && rest[0] == sep && SplitOn(rest[1..], sep) == tail
    ensures SplitOn(a + rest, sep) == [a] + tail
  {
    if a == [] {
      assert a + rest == rest;
    } else {
      var s := a + rest;
      assert s[0] == a[0] && s[0] != sep;
      assert s[1..] == a[1..] + rest;
      SplitPrefix(a[1..], rest, sep, tail);
      assert SplitOn(s, sep) == [[a[0]] + SplitOn(s[1..], sep)[0]] + SplitOn(s[1..], sep)[1..];
      assert [a[0]] + a[1..] == a;
    }
  }

  lemma MonthTokenOf(m: nat)
    requires 1 <= m <= 12
    ensures MonthToken(ZeroPad(m, 2)) && SmallValue(ZeroPad(m, 2)) == m
  {
    ZeroPadWidth(m, 2);
    TwoDigits(ZeroPad(m, 2));
  }

  lemma DayTokenOf(d: nat)
    requires 1 <= d <= 31
    ensures DayToken(ZeroPad(d, 2)) && SmallValue(ZeroPad(d, 2)) == d
  {
    ZeroPadWidth(d, 2);
    TwoDigits(ZeroPad(d, 2));
  }

  lemma TwoDigits(t: string)
    requires |t| == 2 && AllDigits(t)
    ensures DigitsValue(t) == 10 * DigitValue(t[0]) + DigitValue(t[1])
  {
    var u := t[..1];
    assert u == [t[0]] && u[..0] == [];
    assert DigitsValue(u) == DigitValue(t[0]);
    assert t[..|t| - 1] == u;
  }
}

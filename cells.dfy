/** Spreadsheet cells, tables of labelled columns, and the pandas
    coercions the pipeline applies to cells. */
module Cells {
  import opened Wrappers
  import opened Text
  import opened Dates
  import opened HeaderDates

  /** Microseconds in a day. */
  const DayMicros := 86_400_000_000

  /** A datetime Python can represent, in microseconds since
      0001-01-01 00:00:00. */
  type Instant = t: int | 0 <= t < MaxOrdinal * DayMicros

  /** One cell value. `Empty` is pandas' missing value (None/NaN/NaT/NA);
      `DateVal` a date (a datetime at midnight); `Moment` a datetime with
      a time of day, such as the `Modified` stamp. */
  datatype Cell =
    | Empty
    | Text(s: string)
    | Num(x: real)
    | DateVal(d: CivilDate)
    | Moment(stamp: Instant)

  /** A sheet as read with header=None: rows of cells, possibly ragged. */
  type Grid = seq<seq<Cell>>

  /** A table: column labels and rows of cells, one per label. Labels may
      repeat; looking a label up finds its first column. */
  datatype Frame = Frame(columns: seq<string>, rows: seq<seq<Cell>>)

  predicate WellShaped(f: Frame)
  {
    forall i :: 0 <= i < |f.rows| ==> |f.rows[i]| == |f.columns|
  }

  /** The table pd.DataFrame() builds: no columns, no rows. */
  const EmptyFrame := Frame([], [])

  /** DataFrame.empty: true when either axis has length zero. */
  predicate IsEmpty(f: Frame)
  {
    |f.columns| == 0 || |f.rows| == 0
  }

  /** Position of the first column labelled c, or |cols| when there is none. */
  function IndexOf(cols: seq<string>, c: string): (i: nat)
    ensures i <= |cols|
    ensures i < |cols| <==> c in cols
    ensures i < |cols| ==> cols[i] == c
    ensures forall j :: 0 <= j < i ==> cols[j] != c
  {
    if cols == [] then 0
    else if cols[0] == c then 0
    else 1 + IndexOf(cols[1..], c)
  }

  /** The cell of `row` under the first column labelled c; Empty when
      there is no such column. */
  function CellOf(cols: seq<string>, row: seq<Cell>, c: string): Cell
  {
    var i := IndexOf(cols, c);
    if i < |row| then row[i] else Empty
  }

  // ---------------------------------------------------------------------
  // Rendering a cell as str() does (the header row's astype(str))
  // ---------------------------------------------------------------------

  /** Up to n digits of the decimal expansion of f, 0 <= f < 1. */
  function FractionDigits(f: real, n: nat): (s: string)
    requires 0.0 <= f < 1.0
    ensures AllDigits(s) && |s| <= n
    decreases n
  {
    if n == 0 || f == 0.0 then ""
    else
      var t := f * 10.0;
      var k := t.Floor;
      [DigitChar(k)] + FractionDigits(t - k as real, n - 1)
  }

  /** str() of a number: an integral value renders like an int, any
      other value as its decimal expansion to 17 places. */
  function NumberText(x: real): (s: string)
    ensures s != []
    ensures x == x.Floor as real ==> s == IntText(x.Floor)
  {
    if x == x.Floor as real then IntText(x.Floor)
    else
      var a := if x < 0.0 then -x else x;
      var w := a.Floor;
      (if x < 0.0 then "-" else "") + NatText(w) + "." + FractionDigits(a - w as real, 17)
  }

  /** The calendar date of an instant. */
  function MomentDate(t: Instant): CivilDate
  {
    FromOrdinal(t / DayMicros + 1)
  }

  /** The wall-clock fields of an instant: hour, minute, second and
      microsecond. */
  function Clock(t: Instant): (c: (nat, nat, nat, nat))
    ensures c.0 < 24 && c.1 < 60 && c.2 < 60 && c.3 < 1_000_000
    ensures c.0 * 3600 + c.1 * 60 + c.2 == (t % DayMicros) / 1_000_000
  {
    var sec := (t % DayMicros) / 1_000_000;
    (sec / 3600, (sec % 3600) / 60, sec % 60, t % 1_000_000)
  }

  /** str() of a datetime: "YYYY-MM-DD HH:MM:SS", followed by ".ffffff"
      when the microseconds are not zero. */
  function MomentText(t: Instant): string
  {
    var (h, m, s, us) := Clock(t);
    DatetimeText(MomentDate(t), h, m, s) + (if us == 0 then "" else "." + ZeroPad(us, 6))
  }

  /** str(v) for a header cell: "nan" for a missing value, the text
      itself, the number, a midnight Timestamp for a date and the full
      datetime for a moment. */
  function Label(c: Cell): (s: string)
    ensures c.Empty? ==> s == "nan"
    ensures c.Text? ==> s == c.s
    ensures c.DateVal? ==> s == TimestampText(c.d)
    ensures c.Moment? ==> s == MomentText(c.stamp)
  {
    match c
    case Empty => "nan"
    case Text(t) => t
    case Num(x) => NumberText(x)
    case DateVal(d) => TimestampText(d)
    case Moment(t) => MomentText(t)
  }

  // ---------------------------------------------------------------------
  // pandas coercions
  // ---------------------------------------------------------------------

  /** The library conversions the pipeline relies on, where pandas'
      behaviour is a heuristic the model leaves uninterpreted:
        looseDate    pd.to_datetime(s, dayfirst=True, errors="coerce") on a string;
        numberOfText pd.to_numeric on a text cell, errors="coerce";
        dateOfValue  pd.to_datetime(v, errors="coerce").date() on a text,
                     number or time-stamp cell. */
  datatype Coercions = Coercions(
    looseDate: string -> Option<CivilDate>,
    numberOfText: string -> Option<real>,
    dateOfValue: Cell -> Option<CivilDate>)

  /** pd.to_numeric(v, errors="coerce"): numbers stay, a missing value or
      a date becomes NaN (None), text goes through the library parse. */
  function ToNumeric(c: Cell, co: Coercions): (r: Option<real>)
    ensures c.Num? ==> r == Some(c.x)
    ensures c.Empty? || c.DateVal? ==> r == None
  {
    match c
    case Num(x) => Some(x)
    case Text(s) => co.numberOfText(s)
    case _ => None
  }

  /** pd.to_datetime(v, errors="coerce").date(): a date stays when it fits
      a nanosecond Timestamp and becomes NaT (None) outside that range, a
      missing value becomes NaT, anything else goes through the library. */
  function ToDate(c: Cell, co: Coercions): (r: Option<CivilDate>)
    ensures c.DateVal? ==> (r == Some(c.d) <==> InTimestampRange(c.d, 0))
    ensures c.DateVal? && !InTimestampRange(c.d, 0) ==> r == None
    ensures c.Empty? ==> r == None
  {
    match c
    case Empty => None
    case DateVal(d) => if InTimestampRange(d, 0) then Some(d) else None
    case _ => co.dateOfValue(c)
  }

  /** parse_header_to_date on a column label, the permissive step taken
      from the coercions. */
  function HeaderDate(h: string, co: Coercions): Option<CivilDate>
  {
    ParseHeaderToDate(h, co.looseDate)
  }

  /** A header cell holding a datetime with whole seconds resolves to its
      date through the ISO step, whatever the permissive parse does, when
      it lies in the Timestamp range. */
  lemma MomentHeaderResolves(t: Instant, co: Coercions)
    requires Clock(t).3 == 0
    requires InTimestampRange(MomentDate(t), (t % DayMicros) / 1_000_000)
    ensures HeaderDate(Label(Moment(t)), co) == Some(MomentDate(t))
  {
    var (h, m, s, _) := Clock(t);
    assert Label(Moment(t)) == DatetimeText(MomentDate(t), h, m, s);
    DatetimeTextResolves(MomentDate(t), h, m, s, co.looseDate);
  }

  /** A header cell holding a whole number k is a spreadsheet serial: it
      resolves to 1899-12-30 plus k days whenever the permissive parse
      declines the text, since neither the ISO pattern nor a strptime
      format accepts a bare integer. */
  lemma IntegerHeaderResolves(k: int, co: Coercions)
    requires co.looseDate(IntText(k)) == None
    ensures HeaderDate(Label(Num(k as real)), co) == SerialDayToDate(k)
  {
    var s := IntText(k);
    assert Label(Num(k as real)) == s;
    var digits := NatText(if k < 0 then -k else k);
    IntTextParts(k, digits);
    IntTextSplits(k, digits);
    DeclinedTextIsSerial(s, co.looseDate);
    SerialOfIntText(k, digits);
  }

  /** A trimmed header text that neither ISO_DATE_RE, nor a strptime
      format, nor the permissive parse accepts goes to the serial step. */
  lemma DeclinedTextIsSerial(s: string, loose: string -> Option<CivilDate>)
    requires s != [] && !IsSpace(s[0]) && IsDigit(s[|s| - 1]) && !IsoShape(s)
    requires |SplitOn(s, '-')| < 3 && |SplitOn(s, '/')| < 3
    requires loose(s) == None
    ensures ParseHeaderToDate(s, loose) == ExcelSerialToDate(s)
  {
    StripUnchanged(s);
    NoFormatAccepts(s);
    ParseStripped(s, loose);
  }

  /** float() of str(k) is k, so the serial step reads k back. */
  lemma SerialOfIntText(k: int, digits: string)
    requires digits == NatText(if k < 0 then -k else k)
    requires IntText(k) == (if k < 0 then "-" else "") + digits
    ensures ExcelSerialToDate(IntText(k)) == SerialDayToDate(k)
  {
    DecimalOfInteger(k < 0, digits, IntText(k));
    assert DigitsValue("") == 0;
  }

  /** [sign] digits parses as a decimal with no fraction part. */
  lemma DecimalOfInteger(negative: bool, digits: string, s: string)
    requires AllDigits(digits) && digits != []
    requires s == (if negative then "-" else "") + digits
    ensures ParseDecimal(s) == Some(Decimal(negative, digits, ""))
  {
    NoSepInDigits(digits, '.');
    SplitNoSep(digits, '.');
    if negative {
      assert s[0] == '-' && s[1..] == digits;
      assert SplitSign(s) == (true, digits);
    } else {
      assert s == digits && IsDigit(s[0]);
    }
  }

  /** str(k) holds no '/' and splits on '-' into at most two pieces. */
  lemma IntTextSplits(k: int, digits: string)
    requires digits == NatText(if k < 0 then -k else k)
    requires IntText(k) == (if k < 0 then "-" else "") + digits
    ensures |SplitOn(IntText(k), '-')| < 3 && |SplitOn(IntText(k), '/')| < 3
  {
    var s := IntText(k);
    if k < 0 {
      SignedSplit(digits, '-');
      assert '/' !in s by {
        NoSepInDigits(digits, '/');
        assert s[0] == '-' && s[1..] == digits;
      }
      SplitNoSep(s, '/');
    } else {
      NoSepInDigits(digits, '-');
      NoSepInDigits(digits, '/');
      SplitNoSep(s, '-');
      SplitNoSep(s, '/');
    }
  }

  lemma IntTextParts(k: int, digits: string)
    requires digits == NatText(if k < 0 then -k else k)
    ensures IntText(k) == (if k < 0 then "-" else "") + digits
    ensures IsDigit(IntText(k)[|IntText(k)| - 1])
    ensures !IsSpace(IntText(k)[0])
    ensures !IsoShape(IntText(k))
  {
    var s := IntText(k);
    if k >= 0 {
      assert s == digits;
      assert IsDigit(s[0]) && IsDigit(s[|s| - 1]);
      if |s| > 4 {
        assert IsDigit(s[4]);
      }
    } else {
      assert s == "-" + digits;
      assert s[|s| - 1] == digits[|digits| - 1];
      if |s| > 4 {
        assert s[4] == digits[3];
      }
    }
  }

  /** Splitting "-digits" on '-' gives an empty piece and the digits. */
  lemma SignedSplit(digits: string, sep: char)
    requires AllDigits(digits) && sep == '-'
    ensures SplitOn("-" + digits, sep) == ["", digits]
  {
    NoSepInDigits(digits, sep);
    SplitNoSep(digits, sep);
    assert ("-" + digits)[1..] == digits;
  }

  /** None of the four strptime formats accepts a string that splits into
      fewer than three pieces on both separators. */
  lemma NoFormatAccepts(s: string)
    requires |SplitOn(s, '-')| < 3 && |SplitOn(s, '/')| < 3
    ensures forall i :: 0 <= i < |Formats| ==> Strptime(s, Formats[i]).None?
  {
  }
}

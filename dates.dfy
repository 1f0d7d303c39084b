/**
 * `validate_date`: a date string is tried against four `strptime` formats in
 * a fixed order and the first that parses is re-emitted as `YYYY-MM-DD`.
 *
 * A format is three digit groups around one separator character. The groups
 * accept what `strptime`'s directives accept: `%Y` four digits, `%m` one or
 * two digits worth 1..12, `%d` one or two digits worth 1..31 or a space and a
 * non-zero digit. The date must then exist in the Gregorian calendar with a
 * year from 1 to 9999, as `datetime` demands.
 */
module Dates {
  import opened Wrappers
  import opened Text
  import opened Decimal

  datatype Date = Date(year: nat, month: nat, day: nat)

  predicate IsLeapYear(y: nat)
  {
    y % 4 == 0 && (y % 100 != 0 || y % 400 == 0)
  }

  function DaysInMonth(y: nat, m: nat): (n: nat)
    requires 1 <= m <= 12
    ensures 28 <= n <= 31
  {
    if m == 2 then (if IsLeapYear(y) then 29 else 28)
    else if m == 4 || m == 6 || m == 9 || m == 11 then 30
    else 31
  }

  predicate ValidDate(d: Date)
  {
    1 <= d.year <= 9999 && 1 <= d.month <= 12 && 1 <= d.day <= DaysInMonth(d.year, d.month)
  }

  /** `%Y<sep>%m<sep>%d` or `%d<sep>%m<sep>%Y`. */
  datatype DateFormat = YearFirst(sep: char) | DayFirst(sep: char)

  /** The formats in the order they are tried: `%Y-%m-%d`, `%d-%m-%Y`, `%d/%m/%Y`, `%Y/%m/%d`. */
  const Formats: seq<DateFormat> := [YearFirst('-'), DayFirst('-'), DayFirst('/'), YearFirst('/')]

  /** Index of the first `c` in `s`, or |s|. */
  function IndexOf(s: string, c: char): (k: nat)
    ensures k <= |s|
    ensures forall i :: 0 <= i < k ==> s[i] != c
    ensures k == |s| || s[k] == c
  {
    if s == [] || s[0] == c then 0 else 1 + IndexOf(s[1..], c)
  }

  /** Exactly three groups separated by two occurrences of `sep`. */
  function SplitThree(s: string, sep: char): (r: Option<(string, string, string)>)
  {
    var i := IndexOf(s, sep);
    if i == |s| then None
    else
      var rest := s[i + 1..];
      var j := IndexOf(rest, sep);
      if j == |rest| then None
      else
        var last := rest[j + 1..];
        if IndexOf(last, sep) < |last| then None
        else Some((s[..i], rest[..j], last))
  }

  lemma SplitThreeOf(a: string, b: string, c: string, sep: char)
    requires sep !in a && sep !in b && sep !in c
    ensures SplitThree(a + [sep] + b + [sep] + c, sep) == Some((a, b, c))
  {
    var s := a + [sep] + b + [sep] + c;
    assert s[|a|] == sep;
    assert IndexOf(s, sep) == |a|;
    var rest := s[|a| + 1..];
    assert rest == b + [sep] + c;
    assert rest[|b|] == sep;
    assert IndexOf(rest, sep) == |b|;
    assert rest[|b| + 1..] == c;
    assert IndexOf(c, sep) == |c|;
    assert s[..|a|] == a;
    assert rest[..|b|] == b;
  }

  function YearToken(t: string): (r: Option<nat>)
  {
    if |t| == 4 && AllDigits(t) then Some(DigitsValue(t)) else None
  }

  function MonthToken(t: string): (r: Option<nat>)
    ensures r.Some? ==> 1 <= r.value <= 12
  {
    if 1 <= |t| <= 2 && AllDigits(t) && 1 <= DigitsValue(t) <= 12 then Some(DigitsValue(t)) else None
  }

  function DayToken(t: string): (r: Option<nat>)
    ensures r.Some? ==> 1 <= r.value <= 31
  {
    if 1 <= |t| <= 2 && AllDigits(t) && 1 <= DigitsValue(t) <= 31 then Some(DigitsValue(t))
    else if |t| == 2 && t[0] == ' ' && '1' <= t[1] <= '9' then Some(DigitValue(t[1]))
    else None
  }

  /** `datetime.strptime(s, f)`: the date it denotes, or None where it raises ValueError. */
  function ParseWith(f: DateFormat, s: string): (r: Option<Date>)
    ensures r.Some? ==> ValidDate(r.value)
  {
    match SplitThree(s, f.sep)
    case None => None
    case Some((a, b, c)) =>
      var yt := if f.YearFirst? then a else c;
      var dt := if f.YearFirst? then c else a;
      match (YearToken(yt), MonthToken(b), DayToken(dt))
      case (Some(y), Some(m), Some(d)) =>
        if ValidDate(Date(y, m, d)) then Some(Date(y, m, d)) else None
      case _ => None
  }

  /** The first format of `fs` that parses `s`, in order. */
  function FirstParse(fs: seq<DateFormat>, s: string): (r: Option<Date>)
    ensures r.Some? ==> ValidDate(r.value)
  {
    if fs == [] then None
    else
      match ParseWith(fs[0], s)
      case Some(d) => Some(d)
      case None => FirstParse(fs[1..], s)
  }

  /** FirstParse fails exactly when every format fails, and otherwise gives the first format's date. */
  lemma {:induction false} FirstParseIsFirstMatch(fs: seq<DateFormat>, s: string)
    ensures FirstParse(fs, s).None? <==> forall k :: 0 <= k < |fs| ==> ParseWith(fs[k], s).None?
    ensures forall k :: 0 <= k < |fs| && ParseWith(fs[k], s).Some? && (forall j :: 0 <= j < k ==> ParseWith(fs[j], s).None?) ==>
              FirstParse(fs, s) == ParseWith(fs[k], s)
  {
    if fs != [] && ParseWith(fs[0], s).None? {
      var rest := fs[1..];
      FirstParseIsFirstMatch(rest, s);
      forall k | 0 < k < |fs| ensures fs[k] == rest[k - 1] { }
      forall k | 0 <= k < |fs| && ParseWith(fs[k], s).Some? && (forall j :: 0 <= j < k ==> ParseWith(fs[j], s).None?)
        ensures FirstParse(fs, s) == ParseWith(fs[k], s)
      {
        assert forall j :: 0 <= j < k - 1 ==> ParseWith(rest[j], s).None? by {
          forall j | 0 <= j < k - 1 ensures ParseWith(rest[j], s).None? {
            assert rest[j] == fs[j + 1];
          }
        }
      }
    }
  }

  function DigitChar(n: nat): (c: char)
    requires n < 10
    ensures IsDigit(c) && DigitValue(c) == n
  {
    ('0' as int + n) as char
  }

  /** Two digits, zero-padded. */
  function Pad2(n: nat): (s: string)
    requires n < 100
    ensures |s| == 2 && AllDigits(s) && DigitsValue(s) == n
  {
    var c0, c1 := DigitChar(n / 10), DigitChar(n % 10);
    DigitsAppend([], c0);
    DigitsAppend([c0], c1);
    [c0] + [c1]
  }

  /** Four digits, zero-padded (`strftime('%Y')` for a year of four digits). */
  function Pad4(n: nat): (s: string)
    requires n < 10000
    ensures |s| == 4 && AllDigits(s) && DigitsValue(s) == n
  {
    var c0, c1, c2, c3 := DigitChar(n / 1000), DigitChar(n / 100 % 10), DigitChar(n / 10 % 10), DigitChar(n % 10);
    DigitsAppend([], c0);
    DigitsAppend([c0], c1);
    DigitsAppend([c0, c1], c2);
    DigitsAppend([c0, c1, c2], c3);
    assert [c0] + [c1] == [c0, c1] && [c0, c1] + [c2] == [c0, c1, c2];
    DecimalPlaces(n);
    [c0, c1, c2] + [c3]
  }

  /** The decimal places of `n`, one at a time. */
  lemma DecimalPlaces(n: nat)
    ensures n / 100 == (n / 1000) * 10 + n / 100 % 10
    ensures n / 10 == (n / 100) * 10 + n / 10 % 10
    ensures n == (n / 10) * 10 + n % 10
  {
    assert n / 1000 == n / 100 / 10;
    assert n / 100 == n / 10 / 10;
  }

  /** `strftime('%Y-%m-%d')`. */
  function FormatIso(d: Date): (s: string)
    requires ValidDate(d)
    ensures |s| == 10
  {
    Pad4(d.year) + "-" + Pad2(d.month) + "-" + Pad2(d.day)
  }

  /** The string a date takes in format `f`, with zero-padded groups. */
  function Render(f: DateFormat, d: Date): string
    requires ValidDate(d)
  {
    match f
    case YearFirst(sep) => Pad4(d.year) + [sep] + Pad2(d.month) + [sep] + Pad2(d.day)
    case DayFirst(sep) => Pad2(d.day) + [sep] + Pad2(d.month) + [sep] + Pad4(d.year)
  }

  /** Python `validate_date`: blank gives '', an unparseable string comes back unchanged. */
  function ValidateDate(s: string): string
  {
    if s == [] || Strip(s) == [] then ""
    else
      match FirstParse(Formats, s)
      case Some(d) => FormatIso(d)
      case None => s
  }

  /**
   * Blank input gives ''; any other input comes back unchanged exactly
   * when no format accepts it or it already is the ISO rendering of the
   * date the first accepting format reads.
   */
  lemma ValidateDateUnchanged(s: string)
    ensures IsBlank(s) ==> ValidateDate(s) == ""
    ensures !IsBlank(s) ==>
      (ValidateDate(s) == s <==> FirstParse(Formats, s).None? || FormatIso(FirstParse(Formats, s).value) == s)
  {
  }


  lemma DigitsHaveNoSeparator(t: string, sep: char)
    requires AllDigits(t) && !IsDigit(sep)
    ensures sep !in t
  {
  }

  /** Parsing a date rendered in format `f` with format `f` gives the date back. */
  lemma ParseRender(f: DateFormat, d: Date)
    requires ValidDate(d) && !IsDigit(f.sep)
    ensures ParseWith(f, Render(f, d)) == Some(d)
  {
    var y, m, dd := Pad4(d.year), Pad2(d.month), Pad2(d.day);
    DigitsHaveNoSeparator(y, f.sep);
    DigitsHaveNoSeparator(m, f.sep);
    DigitsHaveNoSeparator(dd, f.sep);
    match f
    case YearFirst(sep) => SplitThreeOf(y, m, dd, sep);
    case DayFirst(sep) => SplitThreeOf(dd, m, y, sep);
  }

  /** A string without `sep` does not parse in a format that uses `sep`. */
  lemma NoSeparatorNoParse(f: DateFormat, s: string)
    requires f.sep !in s
    ensures ParseWith(f, s).None?
  {
    assert IndexOf(s, f.sep) == |s|;
  }

  /** An ISO date `YYYY-MM-DD` is parsed by the first format and maps to itself. */
  lemma IsoFixpoint(d: Date)
    requires ValidDate(d)
    ensures FirstParse(Formats, FormatIso(d)) == Some(d)
    ensures ValidateDate(FormatIso(d)) == FormatIso(d)
  {
    ParseRender(YearFirst('-'), d);
    assert Render(YearFirst('-'), d) == FormatIso(d);
    var s := FormatIso(d);
    assert !IsBlank(s) by { assert !IsSpace(s[4]); }
  }

  /** validate_date on a non-blank string whose first parsing format is `Formats[k]`. */
  lemma ValidateDateFirstFormat(s: string, k: nat, d: Date)
    requires !IsBlank(s) && k < |Formats|
    requires ParseWith(Formats[k], s) == Some(d)
    requires forall j :: 0 <= j < k ==> ParseWith(Formats[j], s).None?
    ensures ValidateDate(s) == FormatIso(d)
  {
    FirstParseIsFirstMatch(Formats, s);
    assert Strip(s) != [];
  }

  /** A date string whose first group has fewer or more than four characters is not year-first. */
  lemma ShortFirstGroupNotYearFirst(a: string, b: string, c: string, sep: char)
    requires sep !in a && sep !in b && sep !in c && |a| != 4
    ensures ParseWith(YearFirst(sep), a + [sep] + b + [sep] + c).None?
  {
    SplitThreeOf(a, b, c, sep);
  }

  /** A date string whose first group has four characters is not day-first. */
  lemma LongFirstGroupNotDayFirst(a: string, b: string, c: string, sep: char)
    requires sep !in a && sep !in b && sep !in c && |a| == 4
    ensures ParseWith(DayFirst(sep), a + [sep] + b + [sep] + c).None?
  {
    SplitThreeOf(a, b, c, sep);
  }

  /** Each of the four accepted formats is reformatted to the same ISO string. */
  lemma RenderedDateNormalises(k: nat, d: Date)
    requires k < |Formats| && ValidDate(d)
    ensures ValidateDate(Render(Formats[k], d)) == FormatIso(d)
  {
    if k == 0 {
      IsoFixpoint(d);
      assert Render(Formats[0], d) == FormatIso(d);
    } else if k == 1 {
      DayFirstDashNormalises(d);
    } else if k == 2 {
      DayFirstSlashNormalises(d);
    } else {
      YearFirstSlashNormalises(d);
    }
  }

  lemma DayFirstDashNormalises(d: Date)
    requires ValidDate(d)
    ensures ValidateDate(Render(DayFirst('-'), d)) == FormatIso(d)
  {
    var s := Render(DayFirst('-'), d);
    assert !IsBlank(s) by { assert !IsSpace(s[0]); }
    ParseRender(DayFirst('-'), d);
    DayFirstNotYearFirst(d);
    ReadBySecondFormat(s, d);
  }

  lemma DayFirstSlashNormalises(d: Date)
    requires ValidDate(d)
    ensures ValidateDate(Render(DayFirst('/'), d)) == FormatIso(d)
  {
    var s := Render(DayFirst('/'), d);
    assert !IsBlank(s) by { assert !IsSpace(s[0]); }
    ParseRender(DayFirst('/'), d);
    SlashesNotDashes(DayFirst('/'), d);
    ReadByThirdFormat(s, d);
  }

  lemma YearFirstSlashNormalises(d: Date)
    requires ValidDate(d)
    ensures ValidateDate(Render(YearFirst('/'), d)) == FormatIso(d)
  {
    var s := Render(YearFirst('/'), d);
    assert !IsBlank(s) by { assert !IsSpace(s[0]); }
    ParseRender(YearFirst('/'), d);
    SlashesNotDashes(YearFirst('/'), d);
    YearFirstNotDayFirst(d);
    ReadByFourthFormat(s, d);
  }

  /** The formats are tried in their order: ISO, day-first with '-', day-first with '/', year-first with '/'. */
  lemma FirstParseChain(s: string)
    ensures FirstParse(Formats, s) ==
      if ParseWith(YearFirst('-'), s).Some? then ParseWith(YearFirst('-'), s)
      else if ParseWith(DayFirst('-'), s).Some? then ParseWith(DayFirst('-'), s)
      else if ParseWith(DayFirst('/'), s).Some? then ParseWith(DayFirst('/'), s)
      else ParseWith(YearFirst('/'), s)
  {
    var f1 := Formats[1..];
    var f2 := f1[1..];
    var f3 := f2[1..];
    assert Formats[0] == YearFirst('-') && f1[0] == DayFirst('-') && f2[0] == DayFirst('/') && f3[0] == YearFirst('/');
    assert f3[1..] == [];
    assert FirstParse(f3, s) == ParseWith(YearFirst('/'), s);
    assert FirstParse(f2, s) == if ParseWith(DayFirst('/'), s).Some? then ParseWith(DayFirst('/'), s) else FirstParse(f3, s);
    assert FirstParse(f1, s) == if ParseWith(DayFirst('-'), s).Some? then ParseWith(DayFirst('-'), s) else FirstParse(f2, s);
    assert FirstParse(Formats, s) == if ParseWith(YearFirst('-'), s).Some? then ParseWith(YearFirst('-'), s) else FirstParse(f1, s);
  }

  lemma ReadBySecondFormat(s: string, d: Date)
    requires !IsBlank(s) && ParseWith(DayFirst('-'), s) == Some(d)
    requires ParseWith(YearFirst('-'), s).None?
    ensures ValidateDate(s) == FormatIso(d)
  {
    FirstParseChain(s);
    assert Strip(s) != [];
  }

  lemma ReadByThirdFormat(s: string, d: Date)
    requires !IsBlank(s) && ParseWith(DayFirst('/'), s) == Some(d)
    requires ParseWith(YearFirst('-'), s).None? && ParseWith(DayFirst('-'), s).None?
    ensures ValidateDate(s) == FormatIso(d)
  {
    FirstParseChain(s);
    assert Strip(s) != [];
  }

  lemma ReadByFourthFormat(s: string, d: Date)
    requires !IsBlank(s) && ParseWith(YearFirst('/'), s) == Some(d)
    requires ParseWith(YearFirst('-'), s).None? && ParseWith(DayFirst('-'), s).None? && ParseWith(DayFirst('/'), s).None?
    ensures ValidateDate(s) == FormatIso(d)
  {
    FirstParseChain(s);
    assert Strip(s) != [];
  }

  /** A day-first '-' rendering is not read year-first: its first group has two digits. */
  lemma DayFirstNotYearFirst(d: Date)
    requires ValidDate(d)
    ensures ParseWith(YearFirst('-'), Render(DayFirst('-'), d)).None?
  {
    var y, m, dd := Pad4(d.year), Pad2(d.month), Pad2(d.day);
    DigitsHaveNoSeparator(y, '-');
    DigitsHaveNoSeparator(m, '-');
    DigitsHaveNoSeparator(dd, '-');
    ShortFirstGroupNotYearFirst(dd, m, y, '-');
  }

  /** A year-first '/' rendering is not read day-first: its first group has four digits. */
  lemma YearFirstNotDayFirst(d: Date)
    requires ValidDate(d)
    ensures ParseWith(DayFirst('/'), Render(YearFirst('/'), d)).None?
  {
    var y, m, dd := Pad4(d.year), Pad2(d.month), Pad2(d.day);
    DigitsHaveNoSeparator(y, '/');
    DigitsHaveNoSeparator(m, '/');
    DigitsHaveNoSeparator(dd, '/');
    LongFirstGroupNotDayFirst(y, m, dd, '/');
  }

  /** A '/' rendering has no '-', so neither '-' format reads it. */
  lemma SlashesNotDashes(f: DateFormat, d: Date)
    requires f.sep == '/' && ValidDate(d)
    ensures ParseWith(YearFirst('-'), Render(f, d)).None?
    ensures ParseWith(DayFirst('-'), Render(f, d)).None?
  {
    var y, m, dd := Pad4(d.year), Pad2(d.month), Pad2(d.day);
    DigitsHaveNoSeparator(y, '-');
    DigitsHaveNoSeparator(m, '-');
    DigitsHaveNoSeparator(dd, '-');
    assert '-' !in Render(f, d);
    NoSeparatorNoParse(YearFirst('-'), Render(f, d));
    NoSeparatorNoParse(DayFirst('-'), Render(f, d));
  }

  /** Applying `validate_date` twice is the same as applying it once. */
  lemma ValidateDateIdempotent(s: string)
    ensures ValidateDate(ValidateDate(s)) == ValidateDate(s)
  {
    if !IsBlank(s) {
      match FirstParse(Formats, s)
      case Some(d) => IsoFixpoint(d);
      case None =>
    }
  }

  /** For example: `15/03/2023` becomes `2023-03-15`; `not-a-date` and `''` are kept. */
  lemma DateExamples(s: string)
    requires s == "not" + "-" + "a" + "-" + "date"
    ensures ValidateDate("15/03/2023") == "2023-03-15"
    ensures ValidateDate(s) == s
    ensures ValidateDate("") == ""
  {
    var d := Date(2023, 3, 15);
    assert ValidDate(d);
    assert Render(Formats[2], d) == "15/03/2023";
    assert FormatIso(d) == "2023-03-15";
    RenderedDateNormalises(2, d);
    NotADate(s);
  }

  /** `not-a-date` is not blank and no format accepts it. */
  lemma NotADate(s: string)
    requires s == "not" + "-" + "a" + "-" + "date"
    ensures ValidateDate(s) == s
  {
    NotADateDashes(s);
    NotADateSlashes(s);
    assert !IsBlank(s) by {
      assert s[0] == 'n';
    }
    UnparsedKept(s);
  }

  /** Text that is not blank and that no format accepts is kept as it is. */
  lemma UnparsedKept(s: string)
    requires !IsBlank(s)
    requires forall k :: 0 <= k < |Formats| ==> ParseWith(Formats[k], s).None?
    ensures ValidateDate(s) == s
  {
    FirstParseIsFirstMatch(Formats, s);
    ValidateDateUnchanged(s);
  }

  /** It splits on '-' into three groups, none of them a number. */
  lemma NotADateDashes(s: string)
    requires s == "not" + "-" + "a" + "-" + "date"
    ensures ParseWith(Formats[0], s).None? && ParseWith(Formats[1], s).None?
  {
    assert s == "not" + ['-'] + "a" + ['-'] + "date";
    SplitThreeOf("not", "a", "date", '-');
    assert YearToken("not").None?;
    assert DayToken("not").None?;
  }

  /** It has no '/'. */
  lemma NotADateSlashes(s: string)
    requires s == "not" + "-" + "a" + "-" + "date"
    ensures ParseWith(Formats[2], s).None? && ParseWith(Formats[3], s).None?
  {
    assert '/' !in s;
    NoSeparatorNoParse(Formats[2], s);
    NoSeparatorNoParse(Formats[3], s);
  }
}

/**
 * The per-value cleaners of `InsuranceDataPreprocessor` (`clean_numeric`,
 * `clean_text`, the header-to-cleaner dispatch of `process_data`) and the
 * row check `validate_row`.
 */
module FieldCleaning {
  import opened Wrappers
  import opened Text
  import opened Decimal
  import Dates

  /** A cleaned cell: a Python float or a Python str. */
  datatype Value = Num(x: real) | Str(s: string)

  /** Python truthiness: `0.0` and `''` are false. */
  predicate Truthy(v: Value)
  {
    match v
    case Num(x) => x != 0.0
    case Str(s) => s != ""
  }

  /** A row as a dictionary from column name to cell. */
  type Record = map<string, Value>

  const ClaimAmountField := "CLAIM_AMOUNT"
  const PremiumField := "PREMIUM_COLLECTED"
  const PaidAmountField := "PAID_AMOUNT"
  const ClaimDateField := "CLAIM_DATE"
  const RemarksField := "REJECTION_REMARKS"
  const CityField := "CITY"

  /**
   * The character class `[â‚¹$,]` as written in the source: the three
   * characters U+00E2, U+201A, U+00B9 (the UTF-8 bytes of the rupee sign
   * read as Windows-1252), the dollar sign and the comma.
   */
  const StrippedChars: set<char> := {'\U{E2}', '\U{201A}', '\U{B9}', '$', ','}

  lemma NumberCharNotSpace(c: char)
    requires IsNumberChar(c)
    ensures !IsSpace(c)
  {
  }

  lemma StrippedNotSpace(c: char)
    requires c in StrippedChars
    ensures !IsSpace(c) && !IsNumberChar(c)
  {
  }

  /** What `clean_numeric` hands to `float()`: the stripped characters removed, then whitespace trimmed. */
  function NumericCore(value: string): string
  {
    Strip(RemoveChars(value, StrippedChars))
  }

  /** Python `clean_numeric`. */
  function CleanNumeric(value: string): Value
  {
    if value == [] || Strip(value) == [] then Num(0.0)
    else
      match ParseFloat(Strip(RemoveChars(value, StrippedChars)))
      case Some(x) => Num(x)
      case None => Str(value)
  }

  /**
   * Blank input gives 0.0; otherwise the result is a number exactly when
   * the input, with the stripped characters removed and trimmed, parses,
   * and a result that is not a number is the original input.
   */
  lemma CleanNumericCases(value: string)
    ensures IsBlank(value) ==> CleanNumeric(value) == Num(0.0)
    ensures CleanNumeric(value).Str? ==> CleanNumeric(value).s == value && ParseFloat(NumericCore(value)).None?
    ensures !IsBlank(value) ==> (CleanNumeric(value).Num? <==> ParseFloat(NumericCore(value)).Some?)
    ensures !IsBlank(value) ==>
      CleanNumeric(value) == match ParseFloat(NumericCore(value)) case Some(x) => Num(x) case None => Str(value)
  {
  }

  /** Inserting one of the stripped characters anywhere leaves a numeric result unchanged. */
  lemma CleanNumericIgnoresStripped(a: string, c: char, b: string)
    requires c in StrippedChars
    requires !IsBlank(a + b) && CleanNumeric(a + b).Num?
    ensures CleanNumeric(a + [c] + b) == CleanNumeric(a + b)
  {
    RemoveCharsIgnores(a, c, b, StrippedChars);
    var s := a + [c] + b;
    assert NumericCore(s) == NumericCore(a + b);
    assert s[|a|] == c;
    StrippedNotSpace(c);
    assert !IsBlank(s);
  }

  /** A plain run of digits, with or without stripped characters around it, is read as its value. */
  lemma CleanNumericDigits(d: string)
    requires d != [] && AllDigits(d)
    ensures CleanNumeric(d) == Num(DigitsValue(d) as real)
  {
    assert !IsSpace(d[0]);
    assert RemoveChars(d, StrippedChars) == d by { RemoveCharsNone(d); }
    assert TrimLeft(d) == d;
    assert TrimRight(d) == d;
    ParseDigits(d);
  }

  /** No character of `t` is stripped, so RemoveChars leaves it alone. */
  lemma {:induction false} RemoveCharsNone(t: string)
    requires forall i :: 0 <= i < |t| ==> t[i] !in StrippedChars
    ensures RemoveChars(t, StrippedChars) == t
    decreases |t|
  {
    if t != [] {
      RemoveCharsNone(t[1..]);
      assert t == [t[0]] + t[1..];
    }
  }

  /** A string with no whitespace at either end is its own strip. */
  lemma StripUntrimmed(t: string)
    requires t != [] && !IsSpace(t[0]) && !IsSpace(t[|t| - 1])
    ensures Strip(t) == t
  {
    assert TrimLeft(t) == t;
    assert TrimRight(t) == t;
  }

  /** `w.f` with digit runs `w` and `f` is read as the decimal number it denotes. */
  lemma CleanNumericDecimal(w: string, f: string)
    requires w != [] && f != [] && AllDigits(w) && AllDigits(f)
    ensures CleanNumeric(w + ['.'] + f) == Num(DecimalValue(w, f))
  {
    var t := w + ['.'] + f;
    assert forall i :: 0 <= i < |t| ==> IsDigit(t[i]) || t[i] == '.' by {
      forall i | 0 <= i < |t| ensures IsDigit(t[i]) || t[i] == '.' {
        if i < |w| { assert t[i] == w[i]; } else if i > |w| { assert t[i] == f[i - |w| - 1]; }
      }
    }
    RemoveCharsNone(t);
    assert IsDigit(t[0]) && IsDigit(t[|t| - 1]);
    StripUntrimmed(t);
    assert !IsSpace(t[0]);
    ParseDecimalParts(w, f);
  }

  /**
   * A value that starts with a character that is neither whitespace, nor
   * stripped, nor part of a number cannot parse, so it comes back unchanged.
   */
  lemma CleanNumericRejects(value: string)
    requires value != [] && !IsSpace(value[0]) && value[0] !in StrippedChars && !IsNumberChar(value[0])
    ensures CleanNumeric(value) == Str(value)
  {
    var u := RemoveChars(value, StrippedChars);
    assert u == [value[0]] + RemoveChars(value[1..], StrippedChars);
    assert TrimLeft(u) == u;
    assert !IsBlank(u);
    var t := Strip(u);
    assert t[0] == u[0] == value[0];
    assert !IsBlank(value);
  }

  /** A leading dollar sign is ignored in front of a number that starts with a digit or sign. */
  lemma CleanNumericDollar(t: string)
    requires t != [] && IsNumberChar(t[0]) && CleanNumeric(t).Num?
    ensures CleanNumeric(['$'] + t) == CleanNumeric(t)
  {
    NumberCharNotSpace(t[0]);
    var s := ['$'] + t;
    DollarCore(s, t);
    CleanNumericCases(s);
    CleanNumericCases(t);
  }

  lemma DollarCore(s: string, t: string)
    requires s == ['$'] + t
    ensures s != [] && !IsSpace(s[0]) && NumericCore(s) == NumericCore(t)
  {
    assert s[1..] == t && s[0] == '$';
    assert RemoveChars(s, StrippedChars) == RemoveChars(t, StrippedChars);
  }

  /**
   * A thousands separator is ignored: w1 `,` w2 `.` f reads as the decimal
   * number w1 w2 `.` f.
   */
  lemma CleanNumericThousands(w1: string, w2: string, f: string)
    requires w1 != [] && f != [] && AllDigits(w1) && AllDigits(w2) && AllDigits(f)
    ensures CleanNumeric(w1 + [','] + w2 + ['.'] + f) == Num(DecimalValue(w1 + w2, f))
  {
    var w := w1 + w2;
    AllDigitsConcat(w1, w2);
    var b := w2 + ['.'] + f;
    assert CleanNumeric(w1 + b) == Num(DecimalValue(w, f)) by {
      CleanNumericDecimal(w, f);
      AppendAssoc(w1, w2, ['.']);
      AppendAssoc(w1, w2 + ['.'], f);
    }
    assert !IsBlank(w1 + b) by {
      NumberCharNotSpace(w1[0]);
      assert (w1 + b)[0] == w1[0];
    }
    CleanNumericIgnoresStripped(w1, ',', b);
    AppendAssoc(w1 + [','], w2, ['.']);
    AppendAssoc(w1 + [','], w2 + ['.'], f);
  }

  /**
   * A dollar amount with a thousands separator, `$` w1 `,` w2 `.` f, is read as
   * the decimal number w1 w2 `.` f; for example, `"$1,200.50"` is the case
   * w1 = "1", w2 = "200", f = "50".
   */
  lemma CleanNumericCurrency(w1: string, w2: string, f: string)
    requires w1 != [] && f != [] && AllDigits(w1) && AllDigits(w2) && AllDigits(f)
    ensures CleanNumeric(['$'] + w1 + [','] + w2 + ['.'] + f) == Num(DecimalValue(w1 + w2, f))
  {
    var t := w1 + [','] + w2 + ['.'] + f;
    CleanNumericThousands(w1, w2, f);
    assert t[0] == w1[0];
    CleanNumericDollar(t);
    PrependAssoc(['$'], w1, [','], w2, ['.'], f);
  }

  /** For example: blank input, a word, and the rupee sign U+20B9, which is not in the class. */
  lemma CleanNumericExamples(s: string, t: string)
    requires s == "a" + "bc" && t == "\U{20B9}" + "1,200.50"
    ensures CleanNumeric("") == Num(0.0)
    ensures CleanNumeric(s) == Str(s)
    ensures CleanNumeric(t) == Str(t)
  {
    assert s[0] == 'a';
    NotSpecial(s[0]);
    CleanNumericRejects(s);
    assert t[0] == '\U{20B9}';
    NotSpecial(t[0]);
    CleanNumericRejects(t);
  }

  lemma NotSpecial(c: char)
    requires c == 'a' || c == '\U{20B9}'
    ensures !IsSpace(c) && c !in StrippedChars && !IsNumberChar(c)
  {
  }

  /** Python `clean_text`: `' '.join(text.split())`, or '' for blank input. */
  function CleanText(text: string): string
  {
    if text == [] || Strip(text) == [] then "" else JoinSpaces(Words(text))
  }

  /**
   * Whenever `text` is the words `ws` separated by whitespace gaps,
   * `clean_text` gives exactly those words joined by single spaces.
   */
  lemma CleanTextOfSplit(text: string, gaps: seq<string>, ws: seq<string>)
    requires SplitBy(text, gaps, ws) && forall k :: 0 <= k < |ws| ==> IsWord(ws[k])
    ensures CleanText(text) == JoinSpaces(ws)
  {
    SplitByWords(text, gaps, ws);
  }

  /**
   * `clean_text` keeps the words of its input, in order, and joins them
   * with single spaces: the result has no outer whitespace and no runs of
   * whitespace, and it is empty exactly for blank input.
   */
  lemma CleanTextCollapses(text: string)
    ensures IsCollapsed(CleanText(text))
    ensures Words(CleanText(text)) == Words(text)
    ensures CleanText(text) == "" <==> IsBlank(text)
  {
    var ws := Words(text);
    JoinIsCollapsed(ws);
    WordsOfJoin(ws);
    if !IsBlank(text) {
      assert ws != [];
    }
  }

  /** Cleaning text twice is the same as cleaning it once. */
  lemma CleanTextIdempotent(text: string)
    ensures CleanText(CleanText(text)) == CleanText(text)
  {
    CleanTextCollapses(text);
    CleanTextFixpoints(CleanText(text));
  }

  /** The strings `clean_text` leaves unchanged are exactly the collapsed ones. */
  lemma CleanTextFixpoints(s: string)
    ensures CleanText(s) == s <==> IsCollapsed(s)
  {
    CleanTextCollapses(s);
    if IsCollapsed(s) && !IsBlank(s) {
      JoinOfWordsCollapsed(s);
    }
  }

  /** Which cleaner `process_data` applies to a column. */
  datatype Kind = NumericKind | DateKind | TextKind | PassthroughKind

  function KindOf(header: string): Kind
  {
    if header == ClaimAmountField || header == PremiumField || header == PaidAmountField then NumericKind
    else if header == ClaimDateField then DateKind
    else if header == RemarksField || header == CityField then TextKind
    else PassthroughKind
  }

  /** The cleaned cell `process_data` appends for raw `value` under `header`. */
  function CleanField(header: string, value: string): Value
  {
    match KindOf(header)
    case NumericKind => CleanNumeric(value)
    case DateKind => Str(Dates.ValidateDate(value))
    case TextKind => Str(CleanText(value))
    case PassthroughKind => Str(if value != "" then value else "")
  }

  /**
   * Only the three amount columns can hold a number; an empty cell becomes
   * 0.0 there and '' elsewhere; other columns keep the raw text; a numeric
   * cell that stays text keeps its raw text.
   */
  lemma CleanFieldKinds(header: string, value: string)
    ensures KindOf(header) != NumericKind ==> CleanField(header, value).Str?
    ensures value == "" ==> CleanField(header, value) == (if KindOf(header) == NumericKind then Num(0.0) else Str(""))
    ensures KindOf(header) == PassthroughKind ==> CleanField(header, value) == Str(value)
    ensures CleanField(header, value).Str? && KindOf(header) == NumericKind ==> CleanField(header, value).s == value
  {
    if value == "" && KindOf(header) == DateKind {
      Dates.ValidateDateUnchanged(value);
    }
  }

  /** A blank cell cleans to a falsy value (0.0 or '') in every column that is cleaned. */
  lemma CleanFieldBlank(header: string, value: string)
    requires IsBlank(value) && KindOf(header) != PassthroughKind
    ensures !Truthy(CleanField(header, value))
  {
  }

  predicate DistinctHeaders(headers: seq<string>)
  {
    forall i, j :: 0 <= i < j < |headers| ==> headers[i] != headers[j]
  }

  /** The row dictionary `get_cleaned_data` builds from one raw row, header by header. */
  function CleanRecord(headers: seq<string>, row: seq<string>): Record
    requires |row| == |headers|
  {
    if headers == [] then map[]
    else
      var n := |headers| - 1;
      CleanRecord(headers[..n], row[..n])[headers[n] := CleanField(headers[n], row[n])]
  }

  /** Building the record one more header along adds exactly that header's cleaned cell. */
  lemma CleanRecordSnoc(headers: seq<string>, row: seq<string>, j: nat)
    requires |row| == |headers| && j < |headers|
    ensures CleanRecord(headers[..j + 1], row[..j + 1]) ==
      CleanRecord(headers[..j], row[..j])[headers[j] := CleanField(headers[j], row[j])]
  {
    assert headers[..j + 1][..j] == headers[..j];
    assert row[..j + 1][..j] == row[..j];
  }

  /** A cleaned record has exactly the header keys. */
  lemma {:induction false} CleanRecordKeys(headers: seq<string>, row: seq<string>)
    requires |row| == |headers|
    ensures forall h :: h in CleanRecord(headers, row) <==> h in headers
    decreases |headers|
  {
    if headers != [] {
      var n := |headers| - 1;
      CleanRecordKeys(headers[..n], row[..n]);
      assert headers == headers[..n] + [headers[n]];
    }
  }

  /** Each header of a cleaned record holds its own column's cleaned cell. */
  lemma {:induction false} CleanRecordAt(headers: seq<string>, row: seq<string>, j: nat)
    requires |row| == |headers| && DistinctHeaders(headers) && j < |headers|
    ensures headers[j] in CleanRecord(headers, row)
    ensures CleanRecord(headers, row)[headers[j]] == CleanField(headers[j], row[j])
    decreases |headers|
  {
    var n := |headers| - 1;
    if j < n {
      assert DistinctHeaders(headers[..n]);
      CleanRecordAt(headers[..n], row[..n], j);
      assert headers[..n][j] == headers[j] && row[..n][j] == row[j];
      assert headers[j] != headers[n];
    }
  }

  const RequiredFields: seq<string> := [ClaimAmountField, PremiumField, CityField]

  /** Each field is present in the row and truthy. */
  predicate AllPresent(row: Record, fields: seq<string>)
  {
    forall k :: 0 <= k < |fields| ==> fields[k] in row && Truthy(row[fields[k]])
  }

  /** Python `validate_row`. */
  function ValidateRow(row: Record): (valid: bool)
    ensures valid <==>
      && ClaimAmountField in row && row[ClaimAmountField].Num? && row[ClaimAmountField].x > 0.0
      && PremiumField in row && row[PremiumField].Num? && row[PremiumField].x > 0.0
      && CityField in row && Truthy(row[CityField])
  {
    if !AllPresent(row, RequiredFields) then false
    else
      assert RequiredFields[0] == ClaimAmountField && RequiredFields[1] == PremiumField && RequiredFields[2] == CityField;
      if !row[ClaimAmountField].Num? || row[ClaimAmountField].x < 0.0 then false
    else if !row[PremiumField].Num? || row[PremiumField].x < 0.0 then false
    else true
  }

  /** A cleaned row whose raw claim amount or premium is blank is invalid: blank cleans to 0.0. */
  lemma BlankAmountInvalid(headers: seq<string>, row: seq<string>, j: nat)
    requires |row| == |headers| && DistinctHeaders(headers) && j < |headers|
    requires headers[j] == ClaimAmountField || headers[j] == PremiumField
    requires IsBlank(row[j])
    ensures !ValidateRow(CleanRecord(headers, row))
  {
    CleanRecordAt(headers, row, j);
    CleanFieldBlank(headers[j], row[j]);
  }
}

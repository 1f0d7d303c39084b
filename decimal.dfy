/**
 * Decimal digits and the part of Python's `float(str)` the cleaners use:
 * an optional sign, digits, an optional '.', digits, with at least one
 * digit in all.
 */
module Decimal {
  import opened Wrappers

  predicate IsDigit(c: char)
  {
    '0' <= c <= '9'
  }

  predicate AllDigits(s: string)
  {
    forall i :: 0 <= i < |s| ==> IsDigit(s[i])
  }

  function DigitValue(c: char): (n: nat)
    requires IsDigit(c)
    ensures n < 10
  {
    c as int - '0' as int
  }

  function Pow10(n: nat): (p: nat)
    ensures p >= 1
  {
    if n == 0 then 1 else 10 * Pow10(n - 1)
  }

  /** The number a string of decimal digits denotes (most significant digit first). */
  function DigitsValue(s: string): (n: nat)
    requires AllDigits(s)
    ensures n < Pow10(|s|)
  {
    if s == [] then 0 else DigitsValue(s[..|s| - 1]) * 10 + DigitValue(s[|s| - 1])
  }

  lemma AllDigitsConcat(a: string, b: string)
    ensures AllDigits(a + b) <==> AllDigits(a) && AllDigits(b)
  {
    if AllDigits(a + b) {
      forall i | 0 <= i < |a| ensures IsDigit(a[i]) {
        assert a[i] == (a + b)[i];
      }
      forall i | 0 <= i < |b| ensures IsDigit(b[i]) {
        assert b[i] == (a + b)[|a| + i];
      }
    }
  }

  lemma DigitsAppend(s: string, c: char)
    requires AllDigits(s) && IsDigit(c)
    ensures AllDigits(s + [c]) && DigitsValue(s + [c]) == DigitsValue(s) * 10 + DigitValue(c)
  {
    assert (s + [c])[..|s|] == s;
  }

  /** Index of the first '.', or |s| if there is none. */
  function DotIndex(s: string): (k: nat)
    ensures k <= |s|
    ensures forall i :: 0 <= i < k ==> s[i] != '.'
    ensures k == |s| || s[k] == '.'
  {
    if s == [] || s[0] == '.' then 0 else 1 + DotIndex(s[1..])
  }

  /** Characters `float()` accepts in the grammar modelled here. */
  predicate IsNumberChar(c: char)
  {
    IsDigit(c) || c == '.' || c == '+' || c == '-'
  }

  /** The value of the decimal numeral `w.f`. */
  function DecimalValue(w: string, f: string): (x: real)
    requires AllDigits(w) && AllDigits(f)
    ensures x >= 0.0
  {
    DigitsValue(w) as real + DigitsValue(f) as real / Pow10(|f|) as real
  }

  /** `digits [. digits]` or `. digits`, unsigned. */
  function ParseUnsigned(s: string): (r: Option<real>)
    ensures r.Some? ==> r.value >= 0.0
    ensures r.Some? ==> s != [] && forall i :: 0 <= i < |s| ==> IsDigit(s[i]) || s[i] == '.'
  {
    var k := DotIndex(s);
    var whole := s[..k];
    var frac := if k < |s| then s[k + 1..] else "";
    if AllDigits(whole) && AllDigits(frac) && |whole| + |frac| > 0 then
      assert forall i :: 0 <= i < |s| ==> i < k || i == k || s[i] == frac[i - k - 1];
      Some(DecimalValue(whole, frac))
    else
      None
  }

  /** Python `float(s)` on an already stripped string, restricted to plain decimals. */
  function ParseFloat(s: string): (r: Option<real>)
    ensures r.Some? ==> s != [] && forall i :: 0 <= i < |s| ==> IsNumberChar(s[i])
  {
    if s != [] && (s[0] == '+' || s[0] == '-') then
      match ParseUnsigned(s[1..])
      case Some(x) =>
        assert forall i :: 1 <= i < |s| ==> s[i] == s[1..][i - 1];
        Some(if s[0] == '-' then -x else x)
      case None => None
    else
      ParseUnsigned(s)
  }

  /** A plain run of digits parses to the integer it denotes. */
  lemma ParseDigits(d: string)
    requires d != [] && AllDigits(d)
    ensures ParseFloat(d) == Some(DigitsValue(d) as real)
  {
    assert IsDigit(d[0]);
    assert ParseFloat(d) == ParseUnsigned(d);
    UnsignedWhole(d);
  }

  /** Without a '.', the whole string is the integer part and the fraction is empty. */
  lemma UnsignedWhole(d: string)
    requires d != [] && AllDigits(d)
    ensures ParseUnsigned(d) == Some(DigitsValue(d) as real)
  {
    assert DotIndex(d) == |d|;
    assert d[..|d|] == d;
    assert DecimalValue(d, "") == DigitsValue(d) as real by {
      assert DigitsValue("") == 0 && Pow10(0) == 1;
    }
  }

  /**
   * `w.f` with digit runs `w` and `f`, at least one of them non-empty,
   * parses to the decimal number it denotes (so `.5` is 0.5 and `5.` is 5).
   */
  lemma ParseDecimalParts(w: string, f: string)
    requires AllDigits(w) && AllDigits(f) && |w| + |f| > 0
    ensures ParseFloat(w + ['.'] + f) == Some(DecimalValue(w, f))
  {
    var t := w + ['.'] + f;
    assert t[|w|] == '.';
    assert forall i :: 0 <= i < |w| ==> t[i] == w[i];
    assert DotIndex(t) == |w|;
    assert t[..|w|] == w;
    assert t[|w| + 1..] == f;
    assert t[0] != '+' && t[0] != '-' by {
      if w != [] { assert t[0] == w[0]; }
    }
  }

  /** Some character is a digit. */
  predicate HasDigit(s: string)
  {
    exists i :: 0 <= i < |s| && IsDigit(s[i])
  }

  /** No two characters are both '.'. */
  predicate AtMostOneDot(s: string)
  {
    forall i, j :: 0 <= i < j < |s| && s[i] == '.' ==> s[j] != '.'
  }

  /** The unsigned numerals: digits and at most one '.', with at least one digit. */
  predicate UnsignedNumeral(s: string)
  {
    && (forall i :: 0 <= i < |s| ==> IsDigit(s[i]) || s[i] == '.')
    && AtMostOneDot(s)
    && HasDigit(s)
  }

  /** The numerals `float()` accepts in this model: an optional sign, then an unsigned numeral. */
  predicate Numeral(s: string)
  {
    s != [] && if s[0] == '+' || s[0] == '-' then UnsignedNumeral(s[1..]) else UnsignedNumeral(s)
  }

  /** The unsigned reader succeeds exactly on the unsigned numerals. */
  lemma UnsignedGrammar(s: string)
    ensures ParseUnsigned(s).Some? <==> UnsignedNumeral(s)
  {
    var k := DotIndex(s);
    var whole := s[..k];
    var frac := if k < |s| then s[k + 1..] else "";
    assert forall i :: k < i < |s| ==> s[i] == frac[i - k - 1];
    if ParseUnsigned(s).Some? {
      assert AllDigits(whole) && AllDigits(frac) && |whole| + |frac| > 0;
      forall i, j | 0 <= i < j < |s| && s[i] == '.' ensures s[j] != '.' {
        assert i == k;
        assert IsDigit(frac[j - k - 1]);
      }
      if whole != [] {
        assert IsDigit(s[0]) by { assert s[0] == whole[0]; }
      } else {
        assert IsDigit(s[k + 1]) by { assert s[k + 1] == frac[0]; }
      }
    }
    if UnsignedNumeral(s) {
      assert AllDigits(whole) by {
        forall i | 0 <= i < |whole| ensures IsDigit(whole[i]) { assert whole[i] == s[i]; }
      }
      assert AllDigits(frac) by {
        forall i | 0 <= i < |frac| ensures IsDigit(frac[i]) {
          assert frac[i] == s[k + 1 + i];
          assert s[k] == '.';
        }
      }
      var d :| 0 <= d < |s| && IsDigit(s[d]);
      if d < k {
        assert |whole| > 0;
      } else {
        assert d > k && |frac| > 0;
      }
    }
  }

  /** `float()` succeeds exactly on the numerals: `''`, `'.'`, `'+'` and `'1.2.3'` are rejected. */
  lemma ParseFloatGrammar(s: string)
    ensures ParseFloat(s).Some? <==> Numeral(s)
  {
    if s != [] && (s[0] == '+' || s[0] == '-') {
      UnsignedGrammar(s[1..]);
    } else {
      UnsignedGrammar(s);
    }
  }

  /** `'.5'` is one half: the whole part may be empty. */
  lemma ParseFloatHalf()
    ensures ParseFloat(".5") == Some(0.5)
  {
    ParseDecimalParts("", "5");
    assert [] + ['.'] + "5" == ".5";
    assert DigitsValue("5") == 5;
  }

  /** `''`, `'.'` and `'1.2.3'` are not numbers. */
  lemma ParseFloatRejects()
    ensures ParseFloat("").None? && ParseFloat(".").None? && ParseFloat("1.2.3").None?
  {
    ParseFloatGrammar(".");
    assert !HasDigit(".");
    var t := "1.2.3";
    ParseFloatGrammar(t);
    assert t[1] == '.' && t[3] == '.';
  }

  /** A leading '-' negates, a leading '+' changes nothing. */
  lemma ParseSigned(t: string)
    requires t == [] || (t[0] != '+' && t[0] != '-')
    ensures ParseFloat("-" + t) == (match ParseFloat(t) case Some(x) => Some(-x) case None => None)
    ensures ParseFloat("+" + t) == ParseFloat(t)
  {
    assert ParseFloat(t) == ParseUnsigned(t);
    var neg, pos := "-" + t, "+" + t;
    assert neg[0] == '-' && neg[1..] == t;
    assert pos[0] == '+' && pos[1..] == t;
  }
}

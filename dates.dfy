/**
 * The date-formatting branch of `fix_rsv_dates`: a collection date as the
 * upstream repository deposits it (`YYYY`, `YYYY_MM` or `YYYY_MM_DD`) is
 * brought to the uniform `YYYY-MM-DD` shape, with `XX` standing for an unknown
 * month or day.
 */
module Dates {
  import opened Text

  /**
   * A year alone gets `-XX-XX`. Any other date has every `_` turned into `-`
   * (Python's `date.replace('_', '-')`) and, unless that is ten characters
   * long, `-XX` appended for the missing day.
   */
  function FormatDate(date: string): (formatted: string)
  {
    if |date| == 4 then date + "-XX-XX"
    else
      var hyphenated := ReplaceAll(date, "_", "-");
      if |hyphenated| != 10 then hyphenated + "-XX" else hyphenated
  }

  /**
   * What formatting does to any date: a four-character date gets `-XX-XX`;
   * any other keeps its length (plus three for the `-XX` added exactly when
   * it is not ten characters long), has each `_` turned into `-` and every
   * other character kept in place, and so contains no `_`. No `|` is
   * introduced.
   */
  lemma {:induction false} FormatDateShape(date: string)
    ensures var formatted := FormatDate(date);
      && (|date| == 4 ==> formatted == date + "-XX-XX")
      && (|date| != 4 ==> '_' !in formatted)
      && (|date| != 4 ==> |formatted| == if |date| == 10 then 10 else |date| + 3)
      && (|date| != 4 ==> forall i :: 0 <= i < |date| ==>
            formatted[i] == if date[i] == '_' then '-' else date[i])
      && (|date| != 4 && |date| != 10 ==> formatted[|date|..] == "-XX")
      && ('|' !in date ==> '|' !in formatted)
  {
    ReplaceAllChar(date, '_', '-');
  }

  predicate IsDigit(c: char)
  {
    '0' <= c <= '9'
  }

  predicate AllDigits(s: string)
  {
    forall i :: 0 <= i < |s| ==> IsDigit(s[i])
  }

  /** `s` is exactly `width` decimal digits. */
  predicate IsNumeral(s: string, width: nat)
  {
    |s| == width && AllDigits(s)
  }

  /** The value of one decimal digit. */
  function DigitValue(c: char): (d: int)
  {
    c as int - '0' as int
  }

  /** The decimal value of a string of digits. */
  function DigitsValue(s: string): (v: nat)
    requires AllDigits(s)
    decreases |s|
  {
    if s == [] then 0
    else
      assert IsDigit(s[|s| - 1]);
      10 * DigitsValue(s[..|s| - 1]) + DigitValue(s[|s| - 1])
  }

  /** `n` decimal digits have a value below `10^n`. */
  lemma {:induction false} DigitsValueBound(s: string)
    requires AllDigits(s)
    ensures DigitsValue(s) < Power10(|s|)
    decreases |s|
  {
    if s != [] {
      DigitsValueBound(s[..|s| - 1]);
    }
  }

  function Power10(n: nat): (p: nat)
  {
    if n == 0 then 1 else 10 * Power10(n - 1)
  }

  /** A four-digit numeral is worth its digits weighted by 1000, 100, 10 and 1. */
  lemma {:induction false} DigitsValueFour(s: string)
    requires IsNumeral(s, 4)
    ensures DigitsValue(s) ==
      1000 * DigitValue(s[0]) + 100 * DigitValue(s[1]) + 10 * DigitValue(s[2]) + DigitValue(s[3])
  {
    assert s[..3][..2] == s[..2] && s[..2][..1] == s[..1] && s[..1][..0] == [];
    assert DigitsValue(s[..1]) == DigitValue(s[0]);
    assert DigitsValue(s[..2]) == 10 * DigitValue(s[0]) + DigitValue(s[1]);
    assert DigitsValue(s[..3]) == 100 * DigitValue(s[0]) + 10 * DigitValue(s[1]) + DigitValue(s[2]);
  }

  /** A collection date with what is known of it: the year, maybe the month, maybe the day. */
  datatype CollectionDate =
    | Year(year: string)
    | YearMonth(year: string, month: string)
    | YearMonthDay(year: string, month: string, day: string)
  {
    /** Four-digit year, two-digit month and day. */
    predicate Valid()
    {
      && IsNumeral(year, 4)
      && (!Year? ==> IsNumeral(month, 2))
      && (YearMonthDay? ==> IsNumeral(day, 2))
    }

    /** The date as the upstream repository writes it in field 3 of an identifier. */
    function Deposited(): (raw: string)
    {
      match this
      case Year(y) => y
      case YearMonth(y, m) => y + "_" + m
      case YearMonthDay(y, m, d) => y + "_" + m + "_" + d
    }

    /** The date in the uniform shape, `XX` for what is unknown. */
    function Normalised(): (n: string)
    {
      match this
      case Year(y) => y + "-XX-XX"
      case YearMonth(y, m) => y + "-" + m + "-XX"
      case YearMonthDay(y, m, d) => y + "-" + m + "-" + d
    }
  }

  /** Two digits, or the placeholder `XX`. */
  predicate IsPart(s: string)
  {
    IsNumeral(s, 2) || s == "XX"
  }

  /**
   * A normalised date: `YYYY-MM-DD`, each of month and day two digits or
   * `XX`, and the day unknown whenever the month is.
   */
  predicate IsNormalisedDate(s: string)
  {
    && |s| == 10
    && IsNumeral(s[..4], 4)
    && s[4] == '-' && s[7] == '-'
    && IsPart(s[5..7]) && IsPart(s[8..])
    && (s[5..7] == "XX" ==> s[8..] == "XX")
  }

  lemma {:induction false} FormatYearMonth(y: string, m: string)
    requires IsNumeral(y, 4) && IsNumeral(m, 2)
    ensures FormatDate(y + "_" + m) == y + "-" + m + "-XX"
  {
    var raw, n := y + "_" + m, y + "-" + m + "-XX";
    var formatted := FormatDate(raw);
    FormatDateShape(raw);
    assert |raw| == 7;
    forall i | 0 <= i < 10 ensures formatted[i] == n[i] {
      if i >= 7 {
        assert formatted[7..][i - 7] == n[i];
      } else if i < 4 {
        assert raw[i] == y[i];
      } else if i > 4 {
        assert raw[i] == m[i - 5];
      }
    }
  }

  lemma {:induction false} FormatYearMonthDay(y: string, m: string, d: string)
    requires IsNumeral(y, 4) && IsNumeral(m, 2) && IsNumeral(d, 2)
    ensures FormatDate(y + "_" + m + "_" + d) == y + "-" + m + "-" + d
  {
    var raw, n := y + "_" + m + "_" + d, y + "-" + m + "-" + d;
    var formatted := FormatDate(raw);
    FormatDateShape(raw);
    assert |raw| == 10;
    forall i | 0 <= i < 10 ensures formatted[i] == n[i] {
      if i < 4 {
        assert raw[i] == y[i];
      } else if 4 < i < 7 {
        assert raw[i] == m[i - 5];
      } else if i > 7 {
        assert raw[i] == d[i - 8];
      }
    }
  }

  lemma {:induction false} NormalisedWellFormed(d: CollectionDate)
    requires d.Valid()
    ensures IsNormalisedDate(d.Normalised())
    ensures d.Normalised()[..4] == d.year
  {
    var n := d.Normalised();
    assert n[..4] == d.year;
    assert n[5..7] == if d.Year? then "XX" else d.month;
    assert n[8..] == if d.YearMonthDay? then d.day else "XX";
  }

  /**
   * Each of the three deposited shapes is formatted to its normalised form:
   * `YYYY` to `YYYY-XX-XX`, `YYYY_MM` to `YYYY-MM-XX`, `YYYY_MM_DD` to
   * `YYYY-MM-DD`; the result is ten characters long, a well-formed normalised
   * date, and keeps the four year characters.
   */
  lemma {:induction false} FormatDateDeposited(d: CollectionDate)
    requires d.Valid()
    ensures FormatDate(d.Deposited()) == d.Normalised()
    ensures IsNormalisedDate(FormatDate(d.Deposited()))
    ensures |FormatDate(d.Deposited())| == 10
    ensures FormatDate(d.Deposited())[..4] == d.Deposited()[..4] == d.year
  {
    match d {
      case Year(y) =>
      case YearMonth(y, m) => FormatYearMonth(y, m);
      case YearMonthDay(y, m, dd) => FormatYearMonthDay(y, m, dd);
    }
    NormalisedWellFormed(d);
  }

  /**
   * Formatting is idempotent on normalised dates: a date already in the
   * uniform shape has length 10 and no `_`, so it is left as it is.
   */
  lemma {:induction false} FormatDateNormalised(s: string)
    requires IsNormalisedDate(s)
    ensures FormatDate(s) == s
  {
    var formatted := FormatDate(s);
    FormatDateShape(s);
    forall i | 0 <= i < |s| ensures formatted[i] == s[i] {
      if 4 < i < 7 {
        assert s[5..7][i - 5] == s[i];
      } else if 7 < i {
        assert s[8..][i - 8] == s[i];
      } else if i < 4 {
        assert s[..4][i] == s[i];
      }
    }
  }
}

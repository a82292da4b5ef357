/**
 * The push-payment timestamp: moment's `format('YYYYMMDDHHmmss')` of a local
 * date and time, that is each component written in decimal and zero-filled to
 * its width (four for the year, two for the others), with a parser as its inverse.
 */
module Timestamp {
  import opened Wrappers

  /** A calendar date and wall-clock time; `month` counts from 1 as `MM` prints it. */
  datatype DateTime = DateTime(year: nat, month: nat, day: nat, hour: nat, minute: nat, second: nat)

  predicate IsLeapYear(y: nat) {
    (y % 4 == 0 && y % 100 != 0) || y % 400 == 0
  }

  function DaysInMonth(y: nat, m: nat): nat
    requires 1 <= m <= 12
  {
    if m == 2 then (if IsLeapYear(y) then 29 else 28)
    else if m == 4 || m == 6 || m == 9 || m == 11 then 30
    else 31
  }

  /** A reading of the clock that `YYYY` can print in four digits. */
  predicate Valid(d: DateTime) {
    && d.year <= 9999
    && 1 <= d.month <= 12
    && 1 <= d.day <= DaysInMonth(d.year, d.month)
    && d.hour < 24 && d.minute < 60 && d.second < 60
  }

  predicate IsDigit(c: char) {
    '0' <= c <= '9'
  }

  predicate AllDigits(s: string) {
    forall i :: 0 <= i < |s| ==> IsDigit(s[i])
  }

  function DigitChar(d: nat): (c: char)
    requires d < 10
    ensures IsDigit(c)
  {
    ('0' as int + d) as char
  }

  function DigitValue(c: char): (d: nat)
    requires IsDigit(c)
    ensures d < 10 && DigitChar(d) == c
  {
    c as int - '0' as int
  }

  function Pow10(k: nat): nat {
    if k == 0 then 1 else 10 * Pow10(k - 1)
  }

  /** The shortest decimal numeral of `n`. */
  function Digits(n: nat): (s: string)
    ensures |s| >= 1 && AllDigits(s)
    decreases n
  {
    if n < 10 then [DigitChar(n)] else Digits(n / 10) + [DigitChar(n % 10)]
  }

  function Zeros(k: nat): (s: string)
    ensures |s| == k && AllDigits(s)
  {
    seq(k, _ => '0')
  }

  /** The number a string of decimal digits denotes. */
  function Value(s: string): nat
    requires AllDigits(s)
    decreases |s|
  {
    if |s| == 0 then 0 else Value(s[..|s| - 1]) * 10 + DigitValue(s[|s| - 1])
  }

  lemma {:induction false} ValueDigits(n: nat)
    ensures Value(Digits(n)) == n
    decreases n
  {
    if n >= 10 {
      ValueDigits(n / 10);
      var s := Digits(n);
      assert s[..|s| - 1] == Digits(n / 10);
    }
  }

  lemma {:induction false} ValueZerosPrefix(k: nat, s: string)
    requires AllDigits(s)
    ensures AllDigits(Zeros(k) + s) && Value(Zeros(k) + s) == Value(s)
    decreases |s|
  {
    var t := Zeros(k) + s;
    assert AllDigits(t) by {
      forall i | 0 <= i < |t| ensures IsDigit(t[i]) {
        if i >= k { assert t[i] == s[i - k]; }
      }
    }
    if |s| == 0 {
      ValueOfZeros(k);
      assert t == Zeros(k);
    } else {
      ValueZerosPrefix(k, s[..|s| - 1]);
      assert t[..|t| - 1] == Zeros(k) + s[..|s| - 1];
    }
  }

  lemma {:induction false} ValueOfZeros(k: nat)
    ensures Value(Zeros(k)) == 0
    decreases k
  {
    if k > 0 {
      ValueOfZeros(k - 1);
      assert Zeros(k)[..k - 1] == Zeros(k - 1);
    }
  }

  lemma {:induction false} DigitsLength(n: nat, k: nat)
    ensures 1 <= k && n < Pow10(k) ==> |Digits(n)| <= k
    decreases n
  {
    if 1 <= k && n < Pow10(k) && n >= 10 {
      assert k >= 2;
      DigitsLength(n / 10, k - 1);
    }
  }

  /** The shortest numeral of a number has no leading `0`, unless it is `"0"` itself. */
  lemma {:induction false} DigitsLead(n: nat)
    ensures |Digits(n)| > 1 ==> Digits(n)[0] != '0'
    decreases n
  {
    if n >= 10 {
      DigitsLead(n / 10);
      assert Digits(n)[0] == Digits(n / 10)[0];
    }
  }

  /**
   * moment's `zeroFill`: the numeral of `n`, preceded by as many `0` as it
   * lacks of `width`. The result denotes `n`, is never narrower than `width`,
   * and is exactly `width` wide when `n` has no more than `width` digits; a
   * wider result is the bare numeral, with no leading `0`. These facts fix
   * the result for every input.
   */
  function ZeroFill(n: nat, width: nat): (s: string)
    ensures AllDigits(s) && Value(s) == n
    ensures |s| >= width && |s| >= 1
    ensures 1 <= width && n < Pow10(width) ==> |s| == width
    ensures |s| > width && |s| > 1 ==> s[0] != '0'
  {
    var digits := Digits(n);
    ValueDigits(n);
    DigitsLead(n);
    ValueZerosPrefix(if |digits| < width then width - |digits| else 0, digits);
    DigitsLength(n, width);
    Zeros(if |digits| < width then width - |digits| else 0) + digits
  }

  /** The contract of `ZeroFill` admits one string only: any string meeting it is the zero-fill. */
  lemma ZeroFillDetermined(n: nat, width: nat, t: string)
    requires AllDigits(t) && Value(t) == n
    requires |t| >= width && |t| >= 1
    requires 1 <= width && n < Pow10(width) ==> |t| == width
    requires |t| > width && |t| > 1 ==> t[0] != '0'
    ensures t == ZeroFill(n, width)
  {
    ZeroFillValue(t);
    var digits := Digits(n);
    assert ZeroFill(n, |t|) == Zeros(if |digits| < |t| then |t| - |digits| else 0) + digits;
    if |t| > width {
      assert |digits| >= |t|;
    }
  }

  /** Appending a digit to a zero-filled numeral fills one position more. */
  lemma ZeroFillStep(v: nat, d: nat, width: nat)
    requires d < 10 && 1 <= width
    ensures ZeroFill(10 * v + d, width + 1) == ZeroFill(v, width) + [DigitChar(d)]
  {
    var digits := Digits(v);
    var pad := if |digits| < width then width - |digits| else 0;
    if v == 0 {
      assert Digits(d) == [DigitChar(d)];
      assert Zeros(width) == Zeros(width - 1) + ['0'];
      assert ZeroFill(10 * v + d, width + 1) == Zeros(width) + [DigitChar(d)];
    } else {
      assert (10 * v + d) / 10 == v && (10 * v + d) % 10 == d;
      assert Digits(10 * v + d) == digits + [DigitChar(d)];
      assert ZeroFill(10 * v + d, width + 1) == Zeros(pad) + (digits + [DigitChar(d)]);
      assert ZeroFill(v, width) == Zeros(pad) + digits;
    }
  }

  /** A numeral of `width` digits is the zero-filled numeral of its value. */
  lemma {:induction false} ZeroFillValue(s: string)
    requires 1 <= |s| && AllDigits(s)
    ensures ZeroFill(Value(s), |s|) == s
    decreases |s|
  {
    var t, c := s[..|s| - 1], s[|s| - 1];
    if |t| == 0 {
      assert s == [DigitChar(DigitValue(c))];
    } else {
      ZeroFillValue(t);
      ZeroFillStep(Value(t), DigitValue(c), |t|);
      assert s == t + [c];
    }
  }

  lemma DigitsJoin(a: string, b: string)
    requires AllDigits(a) && AllDigits(b)
    ensures AllDigits(a + b)
  {
    forall i | |a| <= i < |a + b| ensures IsDigit((a + b)[i]) {
      assert (a + b)[i] == b[i - |a|];
    }
  }

  /**
   * `YYYYMMDDHHmmss`: always decimal digits, at least fourteen of them, and
   * exactly fourteen for a valid reading.
   */
  function Format(d: DateTime): (s: string)
    ensures AllDigits(s) && |s| >= 14
    ensures Valid(d) ==> |s| == 14
  {
    var y, mo, dd := ZeroFill(d.year, 4), ZeroFill(d.month, 2), ZeroFill(d.day, 2);
    var h, mi, sec := ZeroFill(d.hour, 2), ZeroFill(d.minute, 2), ZeroFill(d.second, 2);
    assert Pow10(2) == 100 && Pow10(4) == 10000;
    DigitsJoin(y, mo);
    DigitsJoin(y + mo, dd);
    DigitsJoin(y + mo + dd, h);
    DigitsJoin(y + mo + dd + h, mi);
    DigitsJoin(y + mo + dd + h + mi, sec);
    y + mo + dd + h + mi + sec
  }

  /** The date and time a 14-digit timestamp stands for, if it stands for a valid one. */
  function Parse(s: string): (r: Option<DateTime>)
    ensures r.Some? ==> Valid(r.value)
  {
    if |s| == 14 && AllDigits(s) then
      var d := DateTime(Value(s[0..4]), Value(s[4..6]), Value(s[6..8]),
                        Value(s[8..10]), Value(s[10..12]), Value(s[12..14]));
      if Valid(d) then Some(d) else None
    else None
  }

  lemma FieldsAtOffsets(y: string, mo: string, d: string, h: string, mi: string, s: string)
    requires |y| == 4 && |mo| == 2 && |d| == 2 && |h| == 2 && |mi| == 2 && |s| == 2
    requires AllDigits(y) && AllDigits(mo) && AllDigits(d) && AllDigits(h) && AllDigits(mi) && AllDigits(s)
    ensures var t := y + mo + d + h + mi + s;
      && |t| == 14 && AllDigits(t)
      && t[0..4] == y && t[4..6] == mo && t[6..8] == d && t[8..10] == h && t[10..12] == mi && t[12..14] == s
  {
    var t := y + mo + d + h + mi + s;
    forall i | 0 <= i < 14 ensures IsDigit(t[i]) {
      if i < 4 { assert t[i] == y[i]; }
      else if i < 6 { assert t[i] == mo[i - 4]; }
      else if i < 8 { assert t[i] == d[i - 6]; }
      else if i < 10 { assert t[i] == h[i - 8]; }
      else if i < 12 { assert t[i] == mi[i - 10]; }
      else { assert t[i] == s[i - 12]; }
    }
  }

  /**
   * A valid reading formats as exactly fourteen decimal digits, the fields at
   * their fixed offsets.
   */
  lemma FormatShape(d: DateTime)
    requires Valid(d)
    ensures var s := Format(d);
      && |s| == 14 && AllDigits(s)
      && s[0..4] == ZeroFill(d.year, 4) && s[4..6] == ZeroFill(d.month, 2)
      && s[6..8] == ZeroFill(d.day, 2) && s[8..10] == ZeroFill(d.hour, 2)
      && s[10..12] == ZeroFill(d.minute, 2) && s[12..14] == ZeroFill(d.second, 2)
  {
    assert Pow10(2) == 100 && Pow10(4) == 10000;
    FieldsAtOffsets(ZeroFill(d.year, 4), ZeroFill(d.month, 2), ZeroFill(d.day, 2),
                    ZeroFill(d.hour, 2), ZeroFill(d.minute, 2), ZeroFill(d.second, 2));
  }

  /** Parsing a formatted reading gives the reading back. */
  lemma ParseFormat(d: DateTime)
    requires Valid(d)
    ensures Parse(Format(d)) == Some(d)
  {
    FormatShape(d);
  }

  /** Only a formatted reading parses: what parses formats back to the same text. */
  lemma FormatParse(s: string)
    requires Parse(s).Some?
    ensures Format(Parse(s).value) == s
  {
    ZeroFillValue(s[0..4]);
    ZeroFillValue(s[4..6]);
    ZeroFillValue(s[6..8]);
    ZeroFillValue(s[8..10]);
    ZeroFillValue(s[10..12]);
    ZeroFillValue(s[12..14]);
    assert s == s[0..4] + s[4..6] + s[6..8] + s[8..10] + s[10..12] + s[12..14];
  }

  lemma YearExample()
    ensures ZeroFill(2026, 4) == "2026"
  {
    assert "2026"[..3] == "202" && "202"[..2] == "20";
    assert Value("2") == 2 && Value("20") == 20 && Value("202") == 202 && Value("2026") == 2026;
    ZeroFillValue("2026");
  }

  lemma FieldExamples()
    ensures ZeroFill(2026, 4) == "2026" && ZeroFill(10, 2) == "10" && ZeroFill(16, 2) == "16"
    ensures ZeroFill(9, 2) == "09" && ZeroFill(5, 2) == "05" && ZeroFill(3, 2) == "03"
  {
    YearExample();
    assert Value("10") == 10 && Value("16") == 16 && Value("09") == 9 && Value("05") == 5 && Value("03") == 3;
    ZeroFillValue("10");
    ZeroFillValue("16");
    ZeroFillValue("09");
    ZeroFillValue("05");
    ZeroFillValue("03");
  }

  /** 09:05:03 on 16 October 2026. */
  lemma FormatExample()
    ensures Format(DateTime(2026, 10, 16, 9, 5, 3)) == "20261016090503"
  {
    FieldExamples();
  }
}

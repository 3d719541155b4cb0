/** The price API's timestamps ("2024-01-23T00:00:00") and how ElPris reads
    them: `sscanf` with the format "%d-%d-%dT%d:%d:%d", then a copy of the six
    numbers into a C `struct tm`, with no range checks. */
module ApiTime {

  /** The fields of a C `struct tm` that the parser sets. `year` counts from
      1900 and `mon` from 0, as in C. */
  datatype Tm = Tm(year: int, mon: int, mday: int, hour: int, min: int, sec: int, isdst: int)

  predicate IsDigit(c: char) {
    '0' <= c <= '9'
  }

  predicate AllDigits(s: string) {
    forall i :: 0 <= i < |s| ==> IsDigit(s[i])
  }

  predicate AllZeros(s: string) {
    forall i :: 0 <= i < |s| ==> s[i] == '0'
  }

  function DigitValue(c: char): nat
  {
    if IsDigit(c) then c as int - '0' as int else 0
  }

  function DigitChar(d: nat): (c: char)
    requires d < 10
    ensures IsDigit(c) && DigitValue(c) == d
  {
    ('0' as int + d) as char
  }

  /** Decimal value of a digit string, most significant digit first. */
  function DigitsValue(s: string): nat
  {
    if |s| == 0 then 0 else 10 * DigitsValue(s[..|s| - 1]) + DigitValue(s[|s| - 1])
  }

  /** Length of the longest run of digits at the front of `s`: what one `%d`
      conversion consumes. */
  function DigitRun(s: string): (n: nat)
    ensures n <= |s|
  {
    if |s| == 0 || !IsDigit(s[0]) then 0 else 1 + DigitRun(s[1..])
  }

  /** One directive of a scanf format: a `%d` conversion or a literal
      character that must match exactly. */
  datatype Directive = Decimal | Lit(c: char)

  /** The format string "%d-%d-%dT%d:%d:%d". */
  const ApiFormat: seq<Directive> :=
    [Decimal, Lit('-'), Decimal, Lit('-'), Decimal, Lit('T'), Decimal, Lit(':'), Decimal, Lit(':'), Decimal]

  function DecimalCount(fmt: seq<Directive>): nat
  {
    if |fmt| == 0 then 0 else (if fmt[0].Decimal? then 1 else 0) + DecimalCount(fmt[1..])
  }

  /** True when scanning `s` with `fmt` fills every conversion: each `%d`
      finds at least one digit and each literal its character. Input after
      the last directive is ignored, as `sscanf` ignores it. */
  predicate Matches(s: string, fmt: seq<Directive>)
    decreases |fmt|
  {
    if |fmt| == 0 then true
    else
      match fmt[0]
      case Decimal => DigitRun(s) > 0 && Matches(s[DigitRun(s)..], fmt[1..])
      case Lit(c) => |s| > 0 && s[0] == c && Matches(s[1..], fmt[1..])
  }

  /** The numbers the conversions of `fmt` read from `s`, in order. */
  function Scan(s: string, fmt: seq<Directive>): (vals: seq<nat>)
    requires Matches(s, fmt)
    ensures |vals| == DecimalCount(fmt)
    decreases |fmt|
  {
    if |fmt| == 0 then []
    else
      match fmt[0]
      case Decimal => [DigitsValue(s[..DigitRun(s)])] + Scan(s[DigitRun(s)..], fmt[1..])
      case Lit(_) => Scan(s[1..], fmt[1..])
  }

  /** Every conversion is followed by a non-digit literal or ends the
      format, so one conversion cannot swallow the next field. */
  predicate Separated(fmt: seq<Directive>) {
    |fmt| <= 1 ||
    ((fmt[0].Decimal? ==> fmt[1].Lit? && !IsDigit(fmt[1].c)) && Separated(fmt[1..]))
  }

  /** The API format has six conversions, each followed by a separator
      that is not a digit. */
  lemma ApiFormatShape()
    ensures DecimalCount(ApiFormat) == 6
    ensures Separated(ApiFormat)
  {
    assert DecimalCount(ApiFormat) == 6;
  }

  /** A timestamp the parser can read: all six fields present. */
  predicate WellFormedApiTime(s: string) {
    Matches(s, ApiFormat)
  }

  /** `parseApiTime`: year and month are rebased to C's conventions, the
      other fields copied, and DST left for the C library to decide. */
  function ParseApiTime(s: string): (t: Tm)
    requires WellFormedApiTime(s)
    ensures t.isdst == -1
    ensures t.year >= -1900 && t.mon >= -1
    ensures t.mday >= 0 && t.hour >= 0 && t.min >= 0 && t.sec >= 0
  {
    ApiFieldCount(s);
    FieldsToTm(Scan(s, ApiFormat))
  }

  lemma ApiFieldCount(s: string)
    requires WellFormedApiTime(s)
    ensures |Scan(s, ApiFormat)| == 6
  {
    ApiFormatShape();
  }

  /** The assignments into `struct tm` once the six numbers are read. */
  function FieldsToTm(v: seq<nat>): Tm
    requires |v| == 6
  {
    Tm(v[0] as int - 1900, v[1] as int - 1, v[2], v[3], v[4], v[5], -1)
  }

  // ---------------------------------------------------------------------
  // Formatting, the inverse direction

  /** Decimal digits of `n` without leading zeros ("0" for zero). */
  function Digits(n: nat): (s: string)
    ensures |s| > 0 && AllDigits(s)
    ensures DigitsValue(s) == n
  {
    if n < 10 then [DigitChar(n)]
    else
      var s := Digits(n / 10) + [DigitChar(n % 10)];
      assert s[..|s| - 1] == Digits(n / 10);
      s
  }

  function Zeros(k: nat): (z: string)
    ensures |z| == k && AllZeros(z) && AllDigits(z)
  {
    if k == 0 then [] else ['0'] + Zeros(k - 1)
  }

  /** `s` left-padded with zeros to at least `width` characters. */
  function ZeroPad(s: string, width: nat): string
  {
    if |s| >= width then s else Zeros(width - |s|) + s
  }

  /** Lays `fields` out along `fmt`: each conversion takes the next field,
      each literal contributes its character. */
  function Render(fmt: seq<Directive>, fields: seq<string>): string
    requires |fields| == DecimalCount(fmt)
    decreases |fmt|
  {
    if |fmt| == 0 then []
    else
      match fmt[0]
      case Decimal => fields[0] + Render(fmt[1..], fields[1..])
      case Lit(c) => [c] + Render(fmt[1..], fields)
  }

  predicate DigitFields(fields: seq<string>) {
    forall i :: 0 <= i < |fields| ==> |fields[i]| > 0 && AllDigits(fields[i])
  }

  function FieldValues(fields: seq<string>): (vals: seq<nat>)
    ensures |vals| == |fields|
    ensures forall i :: 0 <= i < |fields| ==> vals[i] == DigitsValue(fields[i])
  {
    if |fields| == 0 then [] else [DigitsValue(fields[0])] + FieldValues(fields[1..])
  }

  /** The six zero-padded digit fields of a timestamp: four digits of year,
      two of every other field. Wider values keep all their digits. */
  function PaddedFields(year: nat, month: nat, day: nat, hour: nat, minute: nat, second: nat): seq<string>
  {
    [ZeroPad(Digits(year), 4), ZeroPad(Digits(month), 2), ZeroPad(Digits(day), 2),
     ZeroPad(Digits(hour), 2), ZeroPad(Digits(minute), 2), ZeroPad(Digits(second), 2)]
  }

  /** The API's lexical form of six numbers. */
  function FormatApiTime(year: nat, month: nat, day: nat, hour: nat, minute: nat, second: nat): string
  {
    Render(ApiFormat, PaddedFields(year, month, day, hour, minute, second))
  }

  // ---------------------------------------------------------------------
  // Lemmas

  lemma {:induction false} ZerosValue(z: string)
    requires AllZeros(z)
    ensures AllDigits(z) && DigitsValue(z) == 0
  {
    if |z| > 0 {
      ZerosValue(z[..|z| - 1]);
    }
  }

  /** Leading zeros do not change the value `%d` reads. */
  lemma {:induction false} LeadingZeros(z: string, s: string)
    requires AllZeros(z) && AllDigits(s)
    ensures AllDigits(z + s) && DigitsValue(z + s) == DigitsValue(s)
    decreases |s|
  {
    if |s| == 0 {
      assert z + s == z;
      ZerosValue(z);
    } else {
      var t := z + s;
      assert t[..|t| - 1] == z + s[..|s| - 1];
      LeadingZeros(z, s[..|s| - 1]);
    }
  }

  lemma ZeroPadValue(s: string, width: nat)
    requires |s| > 0 && AllDigits(s)
    ensures |ZeroPad(s, width)| > 0 && AllDigits(ZeroPad(s, width))
    ensures DigitsValue(ZeroPad(s, width)) == DigitsValue(s)
  {
    if |s| < width {
      LeadingZeros(Zeros(width - |s|), s);
    }
  }

  /** Each padded field is a digit string worth the number it pads. */
  lemma PaddedFieldsValues(year: nat, month: nat, day: nat, hour: nat, minute: nat, second: nat)
    ensures var fields := PaddedFields(year, month, day, hour, minute, second);
            |fields| == 6 && DigitFields(fields)
            && DigitsValue(fields[0]) == year && DigitsValue(fields[1]) == month
            && DigitsValue(fields[2]) == day && DigitsValue(fields[3]) == hour
            && DigitsValue(fields[4]) == minute && DigitsValue(fields[5]) == second
  {
    ZeroPadValue(Digits(year), 4);
    ZeroPadValue(Digits(month), 2);
    ZeroPadValue(Digits(day), 2);
    ZeroPadValue(Digits(hour), 2);
    ZeroPadValue(Digits(minute), 2);
    ZeroPadValue(Digits(second), 2);
  }

  /** A `%d` conversion stops exactly at the end of a digit field that is
      followed by a non-digit or by the end of input. */
  lemma {:induction false} DigitRunOfField(ds: string, rest: string)
    requires AllDigits(ds)
    requires |rest| == 0 || !IsDigit(rest[0])
    ensures DigitRun(ds + rest) == |ds|
    decreases |ds|
  {
    if |ds| > 0 {
      assert (ds + rest)[1..] == ds[1..] + rest;
      DigitRunOfField(ds[1..], rest);
    } else {
      assert ds + rest == rest;
    }
  }

  lemma DigitFieldsTail(fields: seq<string>)
    requires |fields| > 0 && DigitFields(fields)
    ensures DigitFields(fields[1..])
  {
    forall i | 0 <= i < |fields[1..]|
      ensures |fields[1..][i]| > 0 && AllDigits(fields[1..][i])
    {
      assert fields[1..][i] == fields[i + 1];
    }
  }

  /** What follows a conversion's field in a rendering along a separated
      format does not start with a digit. */
  lemma AfterFieldNotDigit(tail: seq<Directive>, fields: seq<string>, rest: string)
    requires |fields| == DecimalCount(tail)
    requires |tail| > 0 ==> tail[0].Lit? && !IsDigit(tail[0].c)
    requires |rest| == 0 || !IsDigit(rest[0])
    ensures var after := Render(tail, fields) + rest;
            |after| == 0 || !IsDigit(after[0])
  {
    if |tail| > 0 {
      assert Render(tail, fields) + rest == [tail[0].c] + (Render(tail[1..], fields) + rest);
    } else {
      assert Render(tail, fields) + rest == rest;
    }
  }

  /** One `%d` step: a digit field followed by a non-digit is read whole,
      and scanning goes on right after it. */
  lemma ScanDecimalStep(ds: string, after: string, fmt: seq<Directive>)
    requires |fmt| > 0 && fmt[0].Decimal?
    requires |ds| > 0 && AllDigits(ds)
    requires |after| == 0 || !IsDigit(after[0])
    requires Matches(after, fmt[1..])
    ensures Matches(ds + after, fmt)
    ensures Scan(ds + after, fmt) == [DigitsValue(ds)] + Scan(after, fmt[1..])
  {
    var r := ds + after;
    DigitRunOfField(ds, after);
    assert r[..|ds|] == ds;
    assert r[|ds|..] == after;
  }

  /** One literal step: the literal's character is consumed and scanning
      goes on right after it. */
  lemma ScanLitStep(c: char, after: string, fmt: seq<Directive>)
    requires |fmt| > 0 && fmt[0] == Lit(c)
    requires Matches(after, fmt[1..])
    ensures Matches([c] + after, fmt)
    ensures Scan([c] + after, fmt) == Scan(after, fmt[1..])
  {
    assert ([c] + after)[1..] == after;
  }

  /** Scanning what `Render` lays out recovers the value of every field,
      whatever text follows, as long as it does not continue the last
      field's digits. */
  lemma {:induction false} ScanRender(fmt: seq<Directive>, fields: seq<string>, rest: string)
    requires |fields| == DecimalCount(fmt)
    requires Separated(fmt)
    requires DigitFields(fields)
    requires |rest| == 0 || !IsDigit(rest[0])
    ensures Matches(Render(fmt, fields) + rest, fmt)
    ensures Scan(Render(fmt, fields) + rest, fmt) == FieldValues(fields)
    decreases |fmt|
  {
    if |fmt| > 0 {
      var tail := fmt[1..];
      match fmt[0]
      case Lit(c) =>
        assert Render(fmt, fields) + rest == [c] + (Render(tail, fields) + rest);
        ScanRender(tail, fields, rest);
        ScanLitStep(c, Render(tail, fields) + rest, fmt);
      case Decimal =>
        var ds := fields[0];
        var after := Render(tail, fields[1..]) + rest;
        assert Render(fmt, fields) + rest == ds + after;
        AfterFieldNotDigit(tail, fields[1..], rest);
        DigitFieldsTail(fields);
        ScanRender(tail, fields[1..], rest);
        ScanDecimalStep(ds, after, fmt);
        assert FieldValues(fields) == [DigitsValue(ds)] + FieldValues(fields[1..]);
    }
  }

  /** `parseApiTime` on any string whose scan yields `v`. */
  lemma ParseScanned(s: string, v: seq<nat>)
    requires WellFormedApiTime(s) && Scan(s, ApiFormat) == v
    ensures |v| == 6 && ParseApiTime(s) == FieldsToTm(v)
  {
    ApiFormatShape();
  }

  /** Six digit fields laid out along the API format, followed by any text
      that does not start with a digit (an offset such as "+01:00", or
      nothing): `parseApiTime` reads exactly the six fields' values and
      ignores the rest. */
  lemma ParseWithTrailingText(fields: seq<string>, rest: string)
    requires |fields| == 6 && DigitFields(fields)
    requires |rest| == 0 || !IsDigit(rest[0])
    ensures WellFormedApiTime(Render(ApiFormat, fields) + rest)
    ensures ParseApiTime(Render(ApiFormat, fields) + rest) == FieldsToTm(FieldValues(fields))
  {
    ApiFormatShape();
    ScanRender(ApiFormat, fields, rest);
    ParseScanned(Render(ApiFormat, fields) + rest, FieldValues(fields));
  }

  /** Scanning six rendered digit fields along the API format. */
  lemma ParseRendered(fields: seq<string>)
    requires |fields| == 6 && DigitFields(fields)
    ensures WellFormedApiTime(Render(ApiFormat, fields))
    ensures ParseApiTime(Render(ApiFormat, fields)) == FieldsToTm(FieldValues(fields))
  {
    var text := Render(ApiFormat, fields);
    assert text + [] == text;
    ParseWithTrailingText(fields, []);
  }

  /** Round trip: any six non-negative numbers, written in the API's
      zero-padded form, are read back by `parseApiTime` unchanged, with only
      the year and month rebased. */
  lemma ParseFormatRoundTrip(year: nat, month: nat, day: nat, hour: nat, minute: nat, second: nat)
    ensures WellFormedApiTime(FormatApiTime(year, month, day, hour, minute, second))
    ensures ParseApiTime(FormatApiTime(year, month, day, hour, minute, second))
         == Tm(year as int - 1900, month as int - 1, day, hour, minute, second, -1)
  {
    PaddedFieldsValues(year, month, day, hour, minute, second);
    ParseRendered(PaddedFields(year, month, day, hour, minute, second));
  }

  lemma DigitsOfExample()
    ensures Digits(2024) == "2024" && Digits(13) == "13" && Digits(40) == "40" && Digits(99) == "99"
  {
  }

  lemma RenderExample()
    ensures Render(ApiFormat, ["2024", "13", "40", "99", "99", "99"]) == "2024-13-40T99:99:99"
  {
  }

  /** The example timestamp is what formatting its six fields yields. */
  lemma FormatOutOfRangeExample()
    ensures FormatApiTime(2024, 13, 40, 99, 99, 99) == "2024-13-40T99:99:99"
  {
    DigitsOfExample();
    RenderExample();
    assert PaddedFields(2024, 13, 40, 99, 99, 99) == ["2024", "13", "40", "99", "99", "99"];
  }

  /** A timestamp with a UTC offset after the seconds, "2024-01-23T00:00:00"
      laid out from its six fields and then "+01:00": the offset is ignored
      and the six fields are read. */
  lemma OffsetIgnoredExample()
    ensures var text := Render(ApiFormat, ["2024", "01", "23", "00", "00", "00"]) + "+01:00";
            WellFormedApiTime(text) && ParseApiTime(text) == Tm(124, 0, 23, 0, 0, 0, -1)
  {
    var fields := ["2024", "01", "23", "00", "00", "00"];
    OffsetExampleValues();
    ParseWithTrailingText(fields, "+01:00");
  }

  lemma OffsetExampleValues()
    ensures var fields := ["2024", "01", "23", "00", "00", "00"];
            DigitFields(fields) && FieldValues(fields) == [2024, 1, 23, 0, 0, 0]
  {
    var fields := ["2024", "01", "23", "00", "00", "00"];
    assert DigitsValue("2024") == 2024 by {
      assert "2024"[..3] == "202" && "202"[..2] == "20" && "20"[..1] == "2" && "2"[..0] == "";
    }
    assert DigitsValue("01") == 1 && DigitsValue("23") == 23 && DigitsValue("00") == 0 by {
      assert "01"[..1] == "0" && "23"[..1] == "2" && "00"[..1] == "0" && "0"[..0] == "" && "2"[..0] == "";
    }
  }

  /** The parser does no range checks: month 13, day 40 and hour 99 pass
      straight into the result. */
  lemma OutOfRangeFieldsPassThrough()
    ensures WellFormedApiTime("2024-13-40T99:99:99")
    ensures ParseApiTime("2024-13-40T99:99:99") == Tm(124, 12, 40, 99, 99, 99, -1)
  {
    FormatOutOfRangeExample();
    ParseFormatRoundTrip(2024, 13, 40, 99, 99, 99);
  }
}

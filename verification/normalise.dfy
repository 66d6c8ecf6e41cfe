/** The value normalisers applied to every field before it is written to an output sheet:
    `format_value` (common/xlsx/large_xlsx_splitter_utils.py) tries a date, then a number,
    and otherwise passes the value through; `format_date_value`
    (common/utilities/large_xls_splitter.py) only tries the date. Both are total: every
    failed parse falls through to the next step instead of raising. */
module Normalise {
  import opened Prelude
  import opened Text
  import opened Values

  // ---------------------------------------------------------------------------
  // Python's float() on decimal literals

  /** The characters a decimal literal may use: digits and the point, plus one sign in front. */
  predicate NumberShape(s: string)
  {
    forall i :: 0 <= i < |s| ==> IsDigit(s[i]) || s[i] == '.' || (i == 0 && (s[i] == '+' || s[i] == '-'))
  }

  function Signed(negative: bool, n: nat): int
  {
    if negative then -(n as int) else n
  }

  /** The unsigned part of a decimal literal, `digits[.digits]` with at least one digit:
      its digits read as one number, and how many of them follow the point. */
  function ParseUnsigned(body: string): (r: Option<(nat, nat)>)
    ensures r.Some? ==> |body| >= 1 && forall i :: 0 <= i < |body| ==> IsDigit(body[i]) || body[i] == '.'
  {
    var parts := Split(body, '.');
    JoinSplit(body, '.');
    var r := ReadParts(parts);
    if r.Some? then
      assert |parts| == 1 ==> body == parts[0];
      assert |parts| == 2 ==> body == parts[0] + "." + parts[1];
      r
    else r
  }

  /** The pieces of a literal split at its points: one digit run, or two runs around a
      single point, with at least one digit in all. */
  function ReadParts(parts: seq<string>): (r: Option<(nat, nat)>)
    ensures r.Some? ==> (|parts| == 1 || |parts| == 2) && |parts[0]| + |parts[|parts| - 1]| >= 1
    ensures r.Some? ==> forall k :: 0 <= k < |parts| ==> AllDigits(parts[k])
  {
    if |parts| == 1 && |parts[0]| >= 1 && AllDigits(parts[0]) then
      Some((DigitsValue(parts[0]), 0))
    else if |parts| == 2 && |parts[0]| + |parts[1]| >= 1 && AllDigits(parts[0]) && AllDigits(parts[1]) then
      Some((DigitsValue(parts[0] + parts[1]), |parts[1]|))
    else None
  }

  /** `float(s)` for literals `[+|-]digits[.digits]` with at least one digit ("5", "-0.25",
      "5.", ".5"): the number as mantissa and places, or None when `float` raises. */
  function ParseDecimal(s: string): (r: Option<Decimal>)
    ensures r.Some? ==> NumberShape(s) && |s| >= 1
  {
    var signed := |s| > 0 && (s[0] == '+' || s[0] == '-');
    var body := if signed then s[1..] else s;
    var u := ParseUnsigned(body);
    if u.None? then None
    else
      assert s == (if signed then [s[0]] + body else body);
      Some(Decimal(Signed(|s| > 0 && s[0] == '-', u.value.0), u.value.1))
  }

  /** Euclidean quotient and remainder by a positive divisor are the real quotient's floor
      and the test for an integral real quotient. */
  lemma RealQuotient(m: int, p: int)
    requires p >= 1
    ensures (m as real / p as real).Floor == m / p
    ensures m % p == 0 <==> (m as real / p as real).Floor as real == m as real / p as real
  {
    var q, r := m / p, m % p;
    assert m == q * p + r && 0 <= r < p;
    assert m as real / p as real == q as real + r as real / p as real;
    assert 0.0 <= r as real / p as real < 1.0;
  }

  /** Trailing zeros after the point dropped, keeping at least one fractional digit. */
  function Canonical(d: Decimal): (c: Decimal)
    ensures DecimalValue(c) == DecimalValue(d)
    ensures d.places >= 1 ==> WellFormedFloat(c)
    decreases d.places
  {
    if d.places > 1 && d.mantissa % 10 == 0 then
      var k := d.mantissa / 10;
      var p := Pow10(d.places - 1);
      assert d.mantissa as real == 10.0 * k as real;
      assert Pow10(d.places) as real == 10.0 * p as real;
      Canonical(Decimal(k, d.places - 1))
    else d
  }

  /** `int(x) if x.is_integer() else x` for the parsed number `x`. */
  function Numeric(d: Decimal): (r: Value)
    ensures r.Int? || r.Float?
    ensures r.Int? <==> DecimalValue(d).Floor as real == DecimalValue(d)
    ensures r.Int? ==> r.i as real == DecimalValue(d)
    ensures r.Float? ==> WellFormedFloat(r.num) && DecimalValue(r.num) == DecimalValue(d)
  {
    var p := Pow10(d.places);
    RealQuotient(d.mantissa, p);
    if d.mantissa % p == 0 then Int(d.mantissa / p) else Float(Canonical(d))
  }

  // ---------------------------------------------------------------------------
  // The normalisers

  /** `format_value`: a date-time text becomes its day as `DD/MM/YYYY`; otherwise a decimal
      literal becomes an int when integral and a float when not; anything else, including
      every non-string, comes back unchanged. */
  function FormatValue(v: Value): (r: Value)
    ensures !v.Str? ==> r == v
    ensures v.Str? ==> !r.Empty?
    ensures v.Str? && (r.Int? || r.Float?) ==> NumberShape(v.s)
    ensures v.Str? && ParseDateTime(v.s).None? && ParseDecimal(v.s).None? ==> r == v
    ensures v.Str? && ParseDateTime(v.s).Some? ==>
              r.Str? && ParseDmy(r.s) == Some(DateOf(ParseDateTime(v.s).value))
  {
    if !v.Str? then v
    else if ParseDateTime(v.s).Some? then
      var t := ParseDateTime(v.s).value;
      ParseDmyText(DateOf(t));
      Str(DmyText(DateOf(t)))
    else if ParseDecimal(v.s).Some? then Numeric(ParseDecimal(v.s).value)
    else v
  }

  /** `format_date_value`: only the date step of `format_value`; numeric text stays text. */
  function FormatDateValue(v: Value): (r: Value)
    ensures r == v || (v.Str? && r.Str?)
    ensures v.Str? && ParseDateTime(v.s).Some? ==>
              r.Str? && ParseDmy(r.s) == Some(DateOf(ParseDateTime(v.s).value))
    ensures !v.Str? || ParseDateTime(v.s).None? ==> r == v
  {
    if !v.Str? then v
    else if ParseDateTime(v.s).Some? then
      var t := ParseDateTime(v.s).value;
      ParseDmyText(DateOf(t));
      Str(DmyText(DateOf(t)))
    else v
  }

  // ---------------------------------------------------------------------------
  // Properties

  /** A number-shaped text is never a date-time text, so the date step cannot swallow it. */
  lemma NumberIsNotDate(s: string)
    requires NumberShape(s)
    ensures ParseDateTime(s).None?
  {
  }

  /** The date step: every canonical date-time text becomes the `DD/MM/YYYY` text of its day,
      under both normalisers. */
  lemma FormatValueDate(t: DateTime)
    requires ValidDateTime(t) && t.micro == 0
    ensures FormatValue(Str(DateTimeText(t))) == Str(DmyText(DateOf(t)))
    ensures FormatDateValue(Str(DateTimeText(t))) == Str(DmyText(DateOf(t)))
  {
    ParseDateTimeText(t);
  }

  /** The number step: a decimal literal becomes the number it denotes. */
  lemma FormatValueNumber(s: string, d: Decimal)
    requires ParseDecimal(s) == Some(d)
    ensures FormatValue(Str(s)) == Numeric(d)
    ensures FormatDateValue(Str(s)) == Str(s)
  {
    NumberIsNotDate(s);
  }

  /** The two normalisers differ exactly on the texts that are decimal literals and not dates. */
  lemma FormatValueVersusFormatDateValue(v: Value)
    ensures FormatValue(v) != FormatDateValue(v) <==>
              v.Str? && ParseDateTime(v.s).None? && ParseDecimal(v.s).Some?
  {
  }

  /** The decimal text of every int reads back as that int. */
  lemma ParseIntText(i: int)
    ensures ParseDecimal(IntText(i)) == Some(Decimal(i, 0))
  {
    var a: nat := Abs(i);
    var t := NatText(a);
    NatTextValue(a);
    SplitFree(t, '.');
    var s := IntText(i);
    if i < 0 {
      assert s[1..] == t;
    } else {
      assert s == t;
    }
  }

  /** `str(i)` of an int normalises back to the same int. */
  lemma FormatValueIntText(i: int)
    ensures FormatValue(Str(IntText(i))) == Int(i)
  {
    ParseIntText(i);
    FormatValueNumber(IntText(i), Decimal(i, 0));
    RealQuotient(i, 1);
  }

  /** A digits-point-digits text reads as all its digits, the point fixing the places. */
  lemma ParseUnsignedPointed(tw: string, tf: string)
    requires AllDigits(tw) && AllDigits(tf) && |tw| >= 1
    ensures ParseUnsigned(tw + "." + tf) == Some((DigitsValue(tw + tf), |tf|))
  {
    SplitJoin([tw, tf], '.');
    assert Join([tw, tf], ".") == tw + "." + tf;
    assert Split(tw + "." + tf, '.') == [tw, tf];
  }

  /** A sign in front of an unsigned literal only chooses the sign of the number. */
  lemma ParseSigned(negative: bool, body: string)
    requires ParseUnsigned(body).Some?
    ensures ParseDecimal((if negative then "-" else "") + body)
            == Some(Decimal(Signed(negative, ParseUnsigned(body).value.0), ParseUnsigned(body).value.1))
  {
    var s := (if negative then "-" else "") + body;
    if negative {
      assert s[0] == '-' && s[1..] == body;
    } else {
      assert s == body;
      assert s[0] != '+' && s[0] != '-';
    }
  }

  /** A digits-point-digits text, with or without a minus sign, parses to its digits. */
  lemma ParsePointed(negative: bool, tw: string, tf: string)
    requires AllDigits(tw) && AllDigits(tf) && |tw| >= 1
    ensures ParseDecimal((if negative then "-" else "") + tw + "." + tf)
            == Some(Decimal(Signed(negative, DigitsValue(tw + tf)), |tf|))
  {
    ParseUnsignedPointed(tw, tf);
    ParseSigned(negative, tw + "." + tf);
    assert (if negative then "-" else "") + tw + "." + tf == (if negative then "-" else "") + (tw + "." + tf);
  }

  /** The positional text of a float with at least one fractional digit reads back as the
      same mantissa and places. */
  lemma ParseDecimalText(d: Decimal)
    requires d.places >= 1
    ensures ParseDecimal(DecimalText(d)) == Some(d)
  {
    var a := Abs(d.mantissa);
    var w, f := Whole(a, d.places), Fraction(a, d.places);
    var p := Pow10(d.places);
    assert a == w * p + f;
    var tw, tf := NatText(w), ZeroPad(f, d.places);
    NatTextValue(w);
    ZeroPadExact(f, d.places);
    DigitsValueConcat(tw, tf);
    ParsePointed(d.mantissa < 0, tw, tf);
    assert DecimalText(d) == (if d.mantissa < 0 then "-" else "") + tw + "." + tf;
  }

  /** `str(x)` of a float normalises back to the float, or to the int it equals
      ("42.0" becomes 42). */
  lemma FormatValueDecimalText(d: Decimal)
    requires WellFormedFloat(d)
    ensures FormatValue(Str(DecimalText(d))) == Numeric(d)
    ensures Numeric(d).Float? ==> Numeric(d) == Float(d)
  {
    ParseDecimalText(d);
    FormatValueNumber(DecimalText(d), d);
  }

  /** Text that is neither a date-time nor a decimal literal passes through `format_value`. */
  lemma FormatValuePassThrough(s: string)
    requires ParseDateTime(s).None? && ParseDecimal(s).None?
    ensures FormatValue(Str(s)) == Str(s)
    ensures FormatDateValue(Str(s)) == Str(s)
  {
  }

  lemma ExampleTexts()
    ensures ZeroPad(2023, 4) == "2023" && ZeroPad(12, 2) == "12" && ZeroPad(31, 2) == "31"
    ensures ZeroPad(0, 2) == "00" && NatText(42) == "42" && ZeroPad(5, 1) == "5"
  {
    assert NatText(2) == "2" && NatText(20) == "20" && NatText(202) == "202" && NatText(2023) == "2023";
    assert NatText(1) == "1" && NatText(12) == "12";
    assert NatText(3) == "3" && NatText(31) == "31";
    assert NatText(0) == "0";
    assert NatText(4) == "4" && NatText(42) == "42";
    assert NatText(5) == "5";
  }

  /** Example: a date-time text becomes its day. */
  lemma FormatValueExampleDate()
    ensures FormatValue(Str("2023-12-31 00:00:00")) == Str("31/12/2023")
  {
    var t := DateTime(2023, 12, 31, 0, 0, 0, 0);
    ExampleTexts();
    assert DateTimeText(t) == "2023-12-31 00:00:00";
    assert DmyText(DateOf(t)) == "31/12/2023";
    FormatValueDate(t);
  }

  /** Example: "42" becomes the int 42 under `format_value` only. */
  lemma FormatValueExampleInt()
    ensures FormatValue(Str("42")) == Int(42)
    ensures FormatDateValue(Str("42")) == Str("42")
  {
    FormatValueIntText(42);
    assert IntText(42) == "42";
    FormatValueNumber("42", Decimal(42, 0));
  }

  /** Example: "42.5" becomes a float. */
  lemma FormatValueExampleFloat()
    ensures FormatValue(Str("42.5")) == Float(Decimal(425, 1))
  {
    var d := Decimal(425, 1);
    ExampleTexts();
    assert Whole(425, 1) == 42 && Fraction(425, 1) == 5;
    assert DecimalText(d) == "42.5";
    FormatValueDecimalText(d);
    assert 425 % Pow10(1) != 0;
  }

  /** Example: "abc" and "" stay text. */
  lemma FormatValueExampleText()
    ensures FormatValue(Str("abc")) == Str("abc")
    ensures FormatValue(Str("")) == Str("")
  {
    SplitFree("abc", '.');
    assert !IsDigit("abc"[0]);
    assert Split("", '.') == [""];
  }
}

/** Cell values as the splitters see them: Python `None`, strings, ints, floats, booleans,
    `datetime.datetime` and `datetime.date`, together with Python's `str()` of each
    and the two fixed-width text forms the normalisers read and write:
    `YYYY-MM-DD HH:MM:SS` (what `str(datetime)` prints) and `DD/MM/YYYY`. */
module Values {
  import opened Prelude
  import opened Text

  // ---------------------------------------------------------------------------
  // Calendar

  datatype Date = Date(year: nat, month: nat, day: nat)

  datatype DateTime = DateTime(year: nat, month: nat, day: nat,
                               hour: nat, minute: nat, second: nat, micro: nat)

  predicate IsLeapYear(y: int)
  {
    y % 4 == 0 && (y % 100 != 0 || y % 400 == 0)
  }

  function DaysInMonth(y: int, m: int): int
    requires 1 <= m <= 12
  {
    if m == 2 then (if IsLeapYear(y) then 29 else 28)
    else if m == 4 || m == 6 || m == 9 || m == 11 then 30
    else 31
  }

  /** A day `datetime.date` accepts (years 1 to 9999). */
  predicate ValidDate(d: Date)
  {
    && 1 <= d.year <= 9999
    && 1 <= d.month <= 12
    && 1 <= d.day <= DaysInMonth(d.year, d.month)
  }

  /** `dt.date()`: the day part of a date-time. */
  function DateOf(t: DateTime): Date
  {
    Date(t.year, t.month, t.day)
  }

  /** A moment `datetime.datetime` accepts. */
  predicate ValidDateTime(t: DateTime)
  {
    && ValidDate(DateOf(t))
    && t.hour <= 23 && t.minute <= 59 && t.second <= 59 && t.micro <= 999999
  }

  // ---------------------------------------------------------------------------
  // Decimal numbers

  /** The number `mantissa / 10^places`, written with `places` digits after the point. */
  datatype Decimal = Decimal(mantissa: int, places: nat)

  function DecimalValue(d: Decimal): real
  {
    d.mantissa as real / Pow10(d.places) as real
  }

  /** How a Python float is carried: by the digits its `repr` prints, at least one of
      them after the point and no superfluous trailing zero ("42.0", "42.5", never "42.50"). */
  predicate WellFormedFloat(d: Decimal)
  {
    d.places >= 1 && (d.places == 1 || d.mantissa % 10 != 0)
  }

  // ---------------------------------------------------------------------------
  // Values

  datatype Value =
    | Empty                 // None
    | Str(s: string)
    | Int(i: int)
    | Float(num: Decimal)
    | Bool(b: bool)
    | Stamp(t: DateTime)    // datetime.datetime
    | Day(date: Date)       // datetime.date

  /** Python's `str(value)`. */
  function Show(v: Value): string
  {
    match v
    case Empty => "None"
    case Str(s) => s
    case Int(i) => IntText(i)
    case Float(d) => FloatText(d)
    case Bool(b) => if b then "True" else "False"
    case Stamp(t) => DateTimeText(t)
    case Day(d) => DateText(d)
  }

  function Abs(i: int): nat { if i < 0 then -i else i }

  /** The digits of `a / 10^places` before the point. */
  function Whole(a: nat, places: nat): nat
  {
    QuotientOfNat(a, Pow10(places));
    a / Pow10(places)
  }

  lemma QuotientOfNat(a: nat, p: int)
    requires p >= 1
    ensures a / p >= 0
  {
  }

  /** The digits of `a / 10^places` after the point. */
  function Fraction(a: nat, places: nat): nat
  {
    a % Pow10(places)
  }

  /** `str(x)` of a float in positional notation: sign, whole part, point, fraction. */
  function DecimalText(d: Decimal): string
  {
    var a := Abs(d.mantissa);
    var whole := Whole(a, d.places);
    var fraction := Fraction(a, d.places);
    (if d.mantissa < 0 then "-" else "") + NatText(whole) + "." + ZeroPad(fraction, d.places)
  }

  /** Whether `str(x)` writes the float positionally: zero, or `1e-4 <= |x| < 1e16`. */
  predicate Positional(d: Decimal)
  {
    var a := Abs(d.mantissa);
    a == 0 || (a * 10000 >= Pow10(d.places) && a < Pow10(d.places + 16))
  }

  /** `str(x)` of a float: positional inside `Positional`'s range, the exponent form outside. */
  function FloatText(d: Decimal): string
  {
    if Positional(d) then DecimalText(d) else ExponentText(d)
  }

  /** `s` without its trailing zeros. */
  function TrimZeros(s: string): (r: string)
    ensures |r| <= |s| && r == s[..|r|]
    ensures forall i :: |r| <= i < |s| ==> s[i] == '0'
    ensures |r| > 0 ==> r[|r| - 1] != '0'
    decreases |s|
  {
    if |s| > 0 && s[|s| - 1] == '0' then TrimZeros(s[..|s| - 1]) else s
  }

  /** The significant digits of a magnitude: its decimal text without trailing zeros. */
  function Significand(a: nat): string
  {
    TrimZeros(NatText(a))
  }

  /** The power of ten of the first significant digit of `d`. */
  function Exponent(d: Decimal): int
  {
    |NatText(Abs(d.mantissa))| - 1 - d.places
  }

  /** The exponent form of `str(x)`: sign, the significant digits with a point after the
      first when there are more, then `e`, the exponent's sign and at least two exponent
      digits (`1e+16`, `-1.5e-05`). */
  function ExponentText(d: Decimal): (s: string)
    ensures |s| >= 2 && !(IsDigit(s[0]) && IsDigit(s[1]))
  {
    var digits := if Significand(Abs(d.mantissa)) == "" then "0" else Significand(Abs(d.mantissa));
    var e := Exponent(d);
    var s := (if d.mantissa < 0 then "-" else "") + [digits[0]]
             + (if |digits| > 1 then "." + digits[1..] else "")
             + "e" + (if e < 0 then "-" else "+") + ZeroPad(Abs(e), 2);
    assert d.mantissa >= 0 ==> s[1] == (if |digits| > 1 then '.' else 'e');
    s
  }

  /** Cutting trailing zeros divides by a power of ten: the digits left, shifted back by
      as many places as were cut, are the number again. */
  lemma {:induction false} TrimZerosValue(s: string)
    requires AllDigits(s)
    ensures AllDigits(TrimZeros(s))
    ensures DigitsValue(s) == DigitsValue(TrimZeros(s)) * Pow10(|s| - |TrimZeros(s)|)
    decreases |s|
  {
    var r := TrimZeros(s);
    assert AllDigits(r) by {
      forall i | 0 <= i < |r| ensures IsDigit(r[i]) {
        assert r[i] == s[i];
      }
    }
    if |s| > 0 && s[|s| - 1] == '0' {
      var s' := s[..|s| - 1];
      TrimZerosValue(s');
      assert r == TrimZeros(s');
      ZeroShift(s, r);
    }
  }

  /** A trailing zero multiplies by ten, as one more power of ten does. */
  lemma ZeroShift(s: string, r: string)
    requires AllDigits(s) && AllDigits(r) && |s| > 0 && s[|s| - 1] == '0' && |r| < |s|
    requires DigitsValue(s[..|s| - 1]) == DigitsValue(r) * Pow10(|s| - 1 - |r|)
    ensures DigitsValue(s) == DigitsValue(r) * Pow10(|s| - |r|)
  {
    var x, p := DigitsValue(r), Pow10(|s| - 1 - |r|);
    var front := DigitsValue(s[..|s| - 1]);
    assert DigitsValue(s) == 10 * front + DigitValue('0');
    assert Pow10(|s| - |r|) == 10 * p;
    ShiftDigit(x, 0, p, 0);
  }

  /** The significant digits of a positive magnitude start with a non-zero digit, and
      followed by the zeros cut away they give back the magnitude: the exponent form
      denotes the same number, `Significand` read with the point after its first digit
      times ten to the `Exponent`. */
  lemma SignificandValue(a: nat)
    requires a > 0
    ensures AllDigits(Significand(a)) && |Significand(a)| >= 1 && Significand(a)[0] != '0'
    ensures DigitsValue(Significand(a)) * Pow10(|NatText(a)| - |Significand(a)|) == a
  {
    var t := NatText(a);
    NatTextValue(a);
    TrimZerosValue(t);
    assert t[0] != '0' by {
      if |t| == 1 {
        assert t == [DigitChar(a)];
      }
    }
    assert |Significand(a)| >= 1 by {
      assert 0 < |t| && t[0] != '0';
    }
  }

  /** An exponent-form text is no date-time text: its first two characters are not both digits. */
  lemma ExponentTextNotDate(d: Decimal)
    ensures ParseDateTime(ExponentText(d)).None?
  {
    var s := ExponentText(d);
    if |s| >= 4 {
      assert !AllDigits(s[0..4]) by {
        assert s[0..4][0] == s[0] && s[0..4][1] == s[1];
      }
    }
  }

  /** `str(dt)` of a datetime: `YYYY-MM-DD HH:MM:SS`, then `.ffffff` when there are
      microseconds. */
  function DateTimeText(t: DateTime): string
  {
    ZeroPad(t.year, 4) + "-" + ZeroPad(t.month, 2) + "-" + ZeroPad(t.day, 2) + " "
      + ZeroPad(t.hour, 2) + ":" + ZeroPad(t.minute, 2) + ":" + ZeroPad(t.second, 2)
      + (if t.micro == 0 then "" else "." + ZeroPad(t.micro, 6))
  }

  /** `str(d)` of a date: `YYYY-MM-DD`. */
  function DateText(d: Date): string
  {
    ZeroPad(d.year, 4) + "-" + ZeroPad(d.month, 2) + "-" + ZeroPad(d.day, 2)
  }

  /** `d.strftime("%d/%m/%Y")`. */
  function DmyText(d: Date): string
  {
    ZeroPad(d.day, 2) + "/" + ZeroPad(d.month, 2) + "/" + ZeroPad(d.year, 4)
  }

  // ---------------------------------------------------------------------------
  // Reading the fixed-width forms back

  predicate DigitsAt(s: string, i: nat, j: nat)
  {
    i <= j <= |s| && AllDigits(s[i..j])
  }

  function FieldAt(s: string, i: nat, j: nat): nat
    requires DigitsAt(s, i, j)
  {
    DigitsValue(s[i..j])
  }

  /** The shape `DDDD-DD-DD DD:DD:DD`, digits and separators in place. */
  predicate CanonicalShape(s: string)
  {
    && |s| == 19
    && DigitsAt(s, 0, 4) && s[4] == '-' && DigitsAt(s, 5, 7) && s[7] == '-'
    && DigitsAt(s, 8, 10) && s[10] == ' ' && DigitsAt(s, 11, 13) && s[13] == ':'
    && DigitsAt(s, 14, 16) && s[16] == ':' && DigitsAt(s, 17, 19)
  }

  /** `datetime.strptime(s, "%Y-%m-%d %H:%M:%S")` on its zero-padded form: the moment the
      text names, or None when the text has another shape or names no real moment. */
  function ParseDateTime(s: string): (r: Option<DateTime>)
    ensures r.Some? ==> ValidDateTime(r.value) && r.value.micro == 0 && DateTimeText(r.value) == s
  {
    if CanonicalShape(s) then
      var t := DateTime(FieldAt(s, 0, 4), FieldAt(s, 5, 7), FieldAt(s, 8, 10),
                        FieldAt(s, 11, 13), FieldAt(s, 14, 16), FieldAt(s, 17, 19), 0);
      if ValidDateTime(t) then
        CanonicalShapeText(s);
        Some(t)
      else None
    else None
  }

  lemma PadOfDigits(s: string)
    requires AllDigits(s) && |s| >= 1
    ensures ZeroPad(DigitsValue(s), |s|) == s
  {
    DigitsValueBound(s);
    ZeroPadExact(DigitsValue(s), |s|);
    DigitsValueInjective(ZeroPad(DigitsValue(s), |s|), s);
  }

  lemma CanonicalShapeText(s: string)
    requires CanonicalShape(s)
    ensures DateTimeText(DateTime(FieldAt(s, 0, 4), FieldAt(s, 5, 7), FieldAt(s, 8, 10),
                                  FieldAt(s, 11, 13), FieldAt(s, 14, 16), FieldAt(s, 17, 19), 0)) == s
  {
    var t := DateTime(FieldAt(s, 0, 4), FieldAt(s, 5, 7), FieldAt(s, 8, 10),
                      FieldAt(s, 11, 13), FieldAt(s, 14, 16), FieldAt(s, 17, 19), 0);
    PadOfDigits(s[0..4]);
    PadOfDigits(s[5..7]);
    PadOfDigits(s[8..10]);
    PadOfDigits(s[11..13]);
    PadOfDigits(s[14..16]);
    PadOfDigits(s[17..19]);
    CanonicalSplit(s);
    calc {
      DateTimeText(t);
      ZeroPad(t.year, 4) + "-" + ZeroPad(t.month, 2) + "-" + ZeroPad(t.day, 2) + " "
        + ZeroPad(t.hour, 2) + ":" + ZeroPad(t.minute, 2) + ":" + ZeroPad(t.second, 2);
      s[0..4] + "-" + s[5..7] + "-" + s[8..10] + " " + s[11..13] + ":" + s[14..16] + ":" + s[17..19];
      s;
    }
  }

  /** A text of the canonical shape is its fields joined by the separators. */
  lemma CanonicalSplit(s: string)
    requires CanonicalShape(s)
    ensures s == s[0..4] + "-" + s[5..7] + "-" + s[8..10] + " " + s[11..13] + ":" + s[14..16] + ":" + s[17..19]
  {
    assert s == s[0..4] + [s[4]] + s[5..7] + [s[7]] + s[8..10] + [s[10]]
                + s[11..13] + [s[13]] + s[14..16] + [s[16]] + s[17..19];
  }

  /** Padding a number below `10^w` to `w` digits, as a digit field of known width. */
  lemma PadField(n: nat, w: nat)
    requires w >= 1 && n < Pow10(w)
    ensures |ZeroPad(n, w)| == w && AllDigits(ZeroPad(n, w)) && DigitsValue(ZeroPad(n, w)) == n
  {
    ZeroPadExact(n, w);
  }

  /** The text of every valid whole-second moment parses back to that moment. */
  lemma ParseDateTimeText(t: DateTime)
    requires ValidDateTime(t) && t.micro == 0
    ensures ParseDateTime(DateTimeText(t)) == Some(t)
  {
    DateTimeTextFields(t);
    var s := DateTimeText(t);
    assert CanonicalShape(s);
    assert DateTime(FieldAt(s, 0, 4), FieldAt(s, 5, 7), FieldAt(s, 8, 10),
                    FieldAt(s, 11, 13), FieldAt(s, 14, 16), FieldAt(s, 17, 19), 0) == t;
  }

  /** The text of a whole-second moment holds its fields as digits, in their places. */
  lemma DateTimeTextFields(t: DateTime)
    requires ValidDateTime(t) && t.micro == 0
    ensures var s := DateTimeText(t);
      && |s| == 19 && s[4] == '-' && s[7] == '-' && s[10] == ' ' && s[13] == ':' && s[16] == ':'
      && AllDigits(s[0..4]) && DigitsValue(s[0..4]) == t.year
      && AllDigits(s[5..7]) && DigitsValue(s[5..7]) == t.month
      && AllDigits(s[8..10]) && DigitsValue(s[8..10]) == t.day
      && AllDigits(s[11..13]) && DigitsValue(s[11..13]) == t.hour
      && AllDigits(s[14..16]) && DigitsValue(s[14..16]) == t.minute
      && AllDigits(s[17..19]) && DigitsValue(s[17..19]) == t.second
  {
    PadField(t.year, 4);
    PadField(t.month, 2);
    PadField(t.day, 2);
    PadField(t.hour, 2);
    PadField(t.minute, 2);
    PadField(t.second, 2);
    var y, mo, d := ZeroPad(t.year, 4), ZeroPad(t.month, 2), ZeroPad(t.day, 2);
    var h, mi, se := ZeroPad(t.hour, 2), ZeroPad(t.minute, 2), ZeroPad(t.second, 2);
    var s := DateTimeText(t);
    assert s == y + "-" + mo + "-" + d + " " + h + ":" + mi + ":" + se;
    CanonicalFields(y, mo, d, h, mi, se);
  }

  /** Where the fields of a `YYYY-MM-DD HH:MM:SS` text sit. */
  lemma CanonicalFields(y: string, mo: string, d: string, h: string, mi: string, se: string)
    requires |y| == 4 && |mo| == 2 && |d| == 2 && |h| == 2 && |mi| == 2 && |se| == 2
    ensures var s := y + "-" + mo + "-" + d + " " + h + ":" + mi + ":" + se;
      && |s| == 19 && s[4] == '-' && s[7] == '-' && s[10] == ' ' && s[13] == ':' && s[16] == ':'
      && s[0..4] == y && s[5..7] == mo && s[8..10] == d && s[11..13] == h && s[14..16] == mi && s[17..19] == se
  {
    var s := y + "-" + mo + "-" + d + " " + h + ":" + mi + ":" + se;
    assert s[0..4] == y;
    assert s[5..7] == mo;
    assert s[8..10] == d;
    assert s[11..13] == h;
    assert s[14..16] == mi;
    assert s[17..19] == se;
  }

  /** A string is a valid canonical date-time text exactly when it is the text of a
      valid whole-second moment. */
  lemma ParseDateTimeExactly(s: string, t: DateTime)
    ensures ParseDateTime(s) == Some(t) <==> (ValidDateTime(t) && t.micro == 0 && s == DateTimeText(t))
  {
    if ValidDateTime(t) && t.micro == 0 && s == DateTimeText(t) {
      ParseDateTimeText(t);
    }
  }

  /** `datetime.strptime(s, "%d/%m/%Y")` on its zero-padded form. */
  function ParseDmy(s: string): Option<Date>
  {
    if |s| == 10 && DigitsAt(s, 0, 2) && s[2] == '/' && DigitsAt(s, 3, 5) && s[5] == '/'
       && DigitsAt(s, 6, 10)
    then
      var d := Date(FieldAt(s, 6, 10), FieldAt(s, 3, 5), FieldAt(s, 0, 2));
      if ValidDate(d) then Some(d) else None
    else None
  }

  /** `DD/MM/YYYY` names the same day it was written from. */
  lemma ParseDmyText(d: Date)
    requires ValidDate(d)
    ensures |DmyText(d)| == 10
    ensures ParseDmy(DmyText(d)) == Some(d)
  {
    PadField(d.day, 2);
    PadField(d.month, 2);
    PadField(d.year, 4);
    var s := DmyText(d);
    assert s[0..2] == ZeroPad(d.day, 2) && s[3..5] == ZeroPad(d.month, 2);
    assert s[6..10] == ZeroPad(d.year, 4);
  }
}

/** Text helpers with Python's meaning: decimal digits, `str(int)`, zero padding,
    `sep.join(fields)`, `s.split(c)` and `s.strip()`. Strings are sequences of
    characters; no encoding is modelled. */
module Text {

  predicate IsDigit(ch: char) { '0' <= ch <= '9' }

  predicate AllDigits(s: string) { forall i :: 0 <= i < |s| ==> IsDigit(s[i]) }

  function DigitValue(ch: char): nat
    requires IsDigit(ch)
  {
    ch as int - '0' as int
  }

  function DigitChar(d: nat): (ch: char)
    requires d < 10
    ensures IsDigit(ch) && DigitValue(ch) == d
  {
    ('0' as int + d) as char
  }

  function Pow10(n: nat): (p: nat)
    ensures p >= 1
  {
    if n == 0 then 1 else 10 * Pow10(n - 1)
  }

  /** The number a run of decimal digits denotes (leading zeros allowed, "" is 0). */
  function DigitsValue(s: string): nat
    requires AllDigits(s)
    decreases |s|
  {
    if |s| == 0 then 0 else 10 * DigitsValue(s[..|s| - 1]) + DigitValue(s[|s| - 1])
  }

  /** `str(n)` for a natural number: shortest decimal, "0" for zero. */
  function NatText(n: nat): (s: string)
    ensures |s| >= 1 && AllDigits(s)
    ensures |s| > 1 ==> s[0] != '0'
    decreases n
  {
    if n < 10 then [DigitChar(n)] else NatText(n / 10) + [DigitChar(n % 10)]
  }

  /** `str(i)` for a Python int. */
  function IntText(i: int): string
  {
    if i < 0 then "-" + NatText(-i) else NatText(i)
  }

  /** `n` written with at least `width` digits, zero-filled on the left (`%02d`, `%04d`). */
  function ZeroPad(n: nat, width: nat): (s: string)
    ensures AllDigits(s)
  {
    var t := NatText(n);
    if |t| >= width then t else Zeros(width - |t|) + t
  }

  function Zeros(k: nat): (s: string)
    ensures |s| == k && AllDigits(s)
    ensures forall i :: 0 <= i < k ==> s[i] == '0'
  {
    if k == 0 then "" else "0" + Zeros(k - 1)
  }

  /** Reading back the decimal text of `n` gives `n`. */
  lemma {:induction false} NatTextValue(n: nat)
    ensures DigitsValue(NatText(n)) == n
    decreases n
  {
    if n >= 10 {
      NatTextValue(n / 10);
      var t := NatText(n);
      assert t[..|t| - 1] == NatText(n / 10);
    }
  }

  /** The decimal text of `n` has at most `w` digits exactly when `n < 10^w`. */
  lemma {:induction false} NatTextLength(n: nat, w: nat)
    requires w >= 1
    ensures |NatText(n)| <= w <==> n < Pow10(w)
    decreases n
  {
    if n >= 10 && w > 1 {
      NatTextLength(n / 10, w - 1);
    }
  }

  lemma {:induction false} LeadingZerosValue(k: nat, s: string)
    requires AllDigits(s)
    ensures AllDigits(Zeros(k) + s)
    ensures DigitsValue(Zeros(k) + s) == DigitsValue(s)
    decreases |s|
  {
    var z := Zeros(k) + s;
    if |s| == 0 {
      ZerosValue(k);
      assert z == Zeros(k);
    } else {
      LeadingZerosValue(k, s[..|s| - 1]);
      assert z[..|z| - 1] == Zeros(k) + s[..|s| - 1];
    }
  }

  lemma {:induction false} ZerosValue(k: nat)
    ensures DigitsValue(Zeros(k)) == 0
    decreases k
  {
    if k > 0 {
      ZerosValue(k - 1);
      assert Zeros(k)[..k - 1] == Zeros(k - 1);
    }
  }

  /** Zero padding to a width the number fits in yields exactly `width` digits that read back as `n`. */
  lemma ZeroPadExact(n: nat, width: nat)
    requires width >= 1 && n < Pow10(width)
    ensures |ZeroPad(n, width)| == width
    ensures DigitsValue(ZeroPad(n, width)) == n
  {
    var t := NatText(n);
    NatTextLength(n, width);
    assert |t| <= width;
    NatTextValue(n);
    assert DigitsValue(t) == n;
    if |t| < width {
      LeadingZerosValue(width - |t|, t);
      assert ZeroPad(n, width) == Zeros(width - |t|) + t;
    } else {
      assert ZeroPad(n, width) == t;
    }
  }

  lemma {:induction false} DigitsValueBound(s: string)
    requires AllDigits(s)
    ensures DigitsValue(s) < Pow10(|s|)
    decreases |s|
  {
    if |s| > 0 {
      DigitsValueBound(s[..|s| - 1]);
    }
  }

  /** Digit runs of equal length are equal exactly when they denote the same number. */
  lemma {:induction false} DigitsValueInjective(s: string, t: string)
    requires AllDigits(s) && AllDigits(t) && |s| == |t|
    requires DigitsValue(s) == DigitsValue(t)
    ensures s == t
    decreases |s|
  {
    if |s| > 0 {
      var s', t' := s[..|s| - 1], t[..|t| - 1];
      DigitsValueBound(s');
      DigitsValueBound(t');
      assert DigitValue(s[|s| - 1]) == DigitsValue(s) % 10;
      assert DigitValue(t[|t| - 1]) == DigitsValue(t) % 10;
      DigitsValueInjective(s', t');
      assert s == s' + [s[|s| - 1]];
      assert t == t' + [t[|t| - 1]];
    }
  }

  /** Reading two digit runs written one after the other: the first is shifted past the second. */
  lemma {:induction false} DigitsValueConcat(a: string, b: string)
    requires AllDigits(a) && AllDigits(b)
    ensures AllDigits(a + b)
    ensures DigitsValue(a + b) == DigitsValue(a) * Pow10(|b|) + DigitsValue(b)
    decreases |b|
  {
    if |b| > 0 {
      var b', c := b[..|b| - 1], b[|b| - 1];
      DigitsValueConcat(a, b');
      assert b == b' + [c];
      DigitsValueConcatStep(a, b', c);
    } else {
      assert a + b == a;
    }
  }

  /** The inductive step of `DigitsValueConcat`: one more digit `c` at the end of `b`. */
  lemma DigitsValueConcatStep(a: string, b: string, c: char)
    requires AllDigits(a) && AllDigits(b) && IsDigit(c) && AllDigits(a + b)
    requires DigitsValue(a + b) == DigitsValue(a) * Pow10(|b|) + DigitsValue(b)
    ensures AllDigits(a + (b + [c])) && AllDigits(b + [c])
    ensures DigitsValue(a + (b + [c])) == DigitsValue(a) * Pow10(|b + [c]|) + DigitsValue(b + [c])
  {
    var s := a + (b + [c]);
    assert s[..|s| - 1] == a + b && s[|s| - 1] == c;
    assert (b + [c])[..|b|] == b;
    var x, y, p, d := DigitsValue(a), DigitsValue(b), Pow10(|b|), DigitValue(c);
    assert DigitsValue(s) == 10 * (x * p + y) + d;
    assert DigitsValue(b + [c]) == 10 * y + d;
    assert Pow10(|b + [c]|) == 10 * p;
    ShiftDigit(x, y, p, d);
  }

  /** Appending a digit to both runs keeps the first shifted past the second. */
  lemma ShiftDigit(x: int, y: int, p: int, d: int)
    ensures 10 * (x * p + y) + d == x * (10 * p) + (10 * y + d)
  {
  }

  /** Distinct numbers have distinct decimal texts. */
  lemma NatTextInjective(m: nat, n: nat)
    requires NatText(m) == NatText(n)
    ensures m == n
  {
    NatTextValue(m);
    NatTextValue(n);
  }

  // ---------------------------------------------------------------------------
  // Joining and splitting on a separator

  /** Python's `sep.join(fields)`. */
  function Join(fields: seq<string>, sep: string): string
    decreases |fields|
  {
    if |fields| == 0 then ""
    else if |fields| == 1 then fields[0]
    else fields[0] + sep + Join(fields[1..], sep)
  }

  /** Python's `s.split(c)` for a one-character separator: never empty, one piece more
      than there are separators. */
  function Split(s: string, c: char): (r: seq<string>)
    ensures |r| >= 1
    decreases |s|
  {
    if |s| == 0 then [""]
    else
      var rest := Split(s[1..], c);
      if s[0] == c then [""] + rest else [[s[0]] + rest[0]] + rest[1..]
  }

  predicate Free(s: string, c: char) { forall i :: 0 <= i < |s| ==> s[i] != c }

  lemma {:induction false} SplitFree(s: string, c: char)
    requires Free(s, c)
    ensures Split(s, c) == [s]
    decreases |s|
  {
    if |s| > 0 {
      SplitFree(s[1..], c);
      assert [s[0]] + s[1..] == s;
    }
  }

  lemma {:induction false} SplitAtFirst(a: string, c: char, b: string)
    requires Free(a, c)
    ensures Split(a + [c] + b, c) == [a] + Split(b, c)
    decreases |a|
  {
    var s := a + [c] + b;
    if |a| == 0 {
      assert s[1..] == b;
    } else {
      assert s[1..] == a[1..] + [c] + b;
      SplitAtFirst(a[1..], c, b);
      assert [a[0]] + a[1..] == a;
    }
  }

  /** Splitting a joined line on its one-character separator gives back the fields,
      provided no field contains the separator. */
  lemma {:induction false} SplitJoin(fields: seq<string>, c: char)
    requires |fields| >= 1
    requires forall i :: 0 <= i < |fields| ==> Free(fields[i], c)
    ensures Split(Join(fields, [c]), c) == fields
    decreases |fields|
  {
    if |fields| == 1 {
      SplitFree(fields[0], c);
    } else {
      SplitJoin(fields[1..], c);
      SplitAtFirst(fields[0], c, Join(fields[1..], [c]));
      assert [fields[0]] + fields[1..] == fields;
    }
  }

  /** Joining the pieces of a split puts the separators back: no text is lost. */
  lemma {:induction false} JoinSplit(s: string, c: char)
    ensures Join(Split(s, c), [c]) == s
    decreases |s|
  {
    if |s| > 0 {
      var rest := Split(s[1..], c);
      JoinSplit(s[1..], c);
      if s[0] == c {
        assert Join([""] + rest, [c]) == "" + [c] + Join(rest, [c]);
      } else {
        var r := [[s[0]] + rest[0]] + rest[1..];
        if |rest| == 1 {
          assert Join(r, [c]) == [s[0]] + rest[0];
        } else {
          assert r[1..] == rest[1..];
          assert Join(rest, [c]) == rest[0] + [c] + Join(rest[1..], [c]);
        }
      }
    }
  }

  lemma {:induction false} JoinFree(fields: seq<string>, sep: string, c: char)
    requires Free(sep, c) || |fields| <= 1
    requires forall i :: 0 <= i < |fields| ==> Free(fields[i], c)
    ensures Free(Join(fields, sep), c)
    decreases |fields|
  {
    if |fields| > 1 {
      JoinFree(fields[1..], sep, c);
    }
  }

  // ---------------------------------------------------------------------------
  // Whitespace stripping

  /** The characters Python's `str.isspace` accepts, and so `str.strip()` removes: the ASCII
      controls 9-13 and 28-31, the space, NEL, the no-break space, and Unicode's other space
      separators and line and paragraph separators. */
  predicate IsSpace(ch: char)
  {
    var n := ch as int;
    || n == 0x20 || (9 <= n <= 13) || (28 <= n <= 31)
    || n == 0x85 || n == 0xA0 || n == 0x1680 || (0x2000 <= n <= 0x200A)
    || n == 0x2028 || n == 0x2029 || n == 0x202F || n == 0x205F || n == 0x3000
  }

  function StripLeft(s: string): (r: string)
    ensures |r| <= |s| && r == s[|s| - |r|..]
    ensures |r| > 0 ==> !IsSpace(r[0])
    ensures forall i :: 0 <= i < |s| - |r| ==> IsSpace(s[i])
    decreases |s|
  {
    if |s| > 0 && IsSpace(s[0]) then StripLeft(s[1..]) else s
  }

  function StripRight(s: string): (r: string)
    ensures |r| <= |s| && r == s[..|r|]
    ensures |r| > 0 ==> !IsSpace(r[|r| - 1])
    ensures forall i :: |r| <= i < |s| ==> IsSpace(s[i])
    decreases |s|
  {
    if |s| > 0 && IsSpace(s[|s| - 1]) then StripRight(s[..|s| - 1]) else s
  }

  /** Python's `s.strip()`: the longest middle slice that neither starts nor ends with
      whitespace, everything cut away being whitespace. */
  function Strip(s: string): (r: string)
    ensures exists i, j :: 0 <= i <= j <= |s| && r == s[i..j]
                           && (forall k :: 0 <= k < i ==> IsSpace(s[k]))
                           && (forall k :: j <= k < |s| ==> IsSpace(s[k]))
    ensures |r| > 0 ==> !IsSpace(r[0]) && !IsSpace(r[|r| - 1])
  {
    var left := StripLeft(s);
    var r := StripRight(left);
    var i := |s| - |left|;
    assert r == s[i..i + |r|];
    r
  }
}

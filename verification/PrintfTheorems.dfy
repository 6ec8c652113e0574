/** What the integer conversions promise: the field of C11, digits that read back, and print-then-parse. */
module PrintfTheorems {
  import opened Machine
  import opened Text
  import opened PrintfField
  import opened PrintfFormat

  lemma {:induction false} PowerMono(a: nat, b: nat, n: nat)
    requires 0 < a <= b
    ensures Power(a, n) <= Power(b, n)
  {
    if n > 0 {
      PowerMono(a, b, n - 1);
      MulLe(a, b, Power(a, n - 1));
      MulLe(Power(a, n - 1), Power(b, n - 1), b);
    }
  }

  lemma {:induction false} PowerAdd(b: nat, m: nat, n: nat)
    requires b > 0
    ensures Power(b, m + n) == Power(b, m) * Power(b, n)
  {
    if m == 0 {
    } else {
      PowerAdd(b, m - 1, n);
      var x, y := Power(b, m - 1), Power(b, n);
      assert (b * x) * y == b * (x * y);
    }
  }

  lemma PowerScratch(base: nat)
    requires 2 <= base <= 16
    ensures Power(base, SCRATCH) >= U32 && (base >= 8 ==> Power(base, SCRATCH) >= U64)
  {
    assert Power(2, 4) == 16;
    PowerAdd(2, 4, 4);
    PowerAdd(2, 8, 8);
    PowerAdd(2, 16, 16);
    PowerMono(2, base, SCRATCH);
    if base >= 8 {
      assert Power(8, 4) == 4096;
      PowerAdd(8, 4, 4);
      PowerAdd(8, 8, 8);
      PowerAdd(8, 16, 16);
      var p := Power(8, 16);
      assert p >= U32;
      MulLe(U32, p, p);
      MulLe(U32, p, U32);
      PowerMono(8, base, SCRATCH);
    }
  }

  // Every argument fits the scratch buffer, except a 64-bit one in base 2.
  lemma ArgumentFits(conv: char, f: Flags, arg: Arg)
    requires IntegerOf(conv, f, arg).Some? && (f.longLong ==> BaseOf(conv) != 2)
    ensures Magnitude(IntegerOf(conv, f, arg).value) < Power(BaseOf(conv), SCRATCH)
  {
    PowerScratch(BaseOf(conv));
  }

  // The stored digits denote the value modulo base^32, with no leading zero when nothing is cut off.
  lemma KeptDenotes(value: nat, base: nat, f: Flags)
    requires 2 <= base <= 16
    ensures Value(Kept(value, base, f), base) == value % Power(base, SCRATCH)
    ensures 0 < value < Power(base, SCRATCH) ==>
              Kept(value, base, f) == Digits(value, base, f.upper) && Kept(value, base, f)[0] != '0'
  {
    if value == 0 && f.precision {
      DivModUnique(0, Power(base, SCRATCH), 0, 0);
    } else {
      var digits := Digits(value, base, f.upper);
      DigitsInBase(value, base, f.upper);
      LastDigitsDenote(digits, base, SCRATCH);
      DigitsDenote(value, base, f.upper);
      if 0 < value < Power(base, SCRATCH) {
        DigitCount(value, base, f.upper, SCRATCH);
        NoLeadingZero(value, base, f.upper);
      }
    }
  }

  // ---------- Section 7.21.6.1 of C11, for a whole conversion ----------

  // No digit is written for the value 0 with an explicit precision of 0.
  function StandardText(conv: char, f: Flags, width: nat, prec: nat, v: int): string {
    var g := IntegerFlags(f, conv);
    var digits := if v == 0 && f.precision && prec == 0 then "" else Digits(Magnitude(v), BaseOf(conv), g.upper);
    StandardField(digits, v < 0, prec, width, g)
  }

  lemma NumberTextField(value: nat, negative: bool, base: nat, prec: u32, width: u32, g: Flags)
    requires 2 <= base <= 16 && !g.hash
    ensures NumberText(value, negative, base, prec, width, g)
            == Field(Kept(value, base, g), negative, base, prec, width, g)
  {
    hide Field, Kept;
    assert g.(hash := false) == g;
  }

  lemma ZeroDigits(base: nat, g: Flags)
    requires 2 <= base <= 16
    ensures Digits(0, base, g.upper) == "0" && Kept(0, base, g) == if g.precision then "" else "0"
  {
  }

  lemma ZeroValueField(negative: bool, prec: nat, width: nat, g: Flags)
    requires prec > 0
    ensures StandardField("0", negative, prec, width, g) == StandardField("", negative, prec, width, g)
  {
    assert Repeat('0', prec - 1) + "0" == Repeat('0', prec) + "";
  }

  // The zeros of the precision can stand for the digit of a zero value.
  lemma StandardKept(conv: char, f: Flags, width: u32, prec: u32, v: int)
    requires Magnitude(v) < Power(BaseOf(conv), SCRATCH)
    ensures var g := IntegerFlags(f, conv);
      StandardText(conv, f, width, prec, v)
      == StandardField(Kept(Magnitude(v), BaseOf(conv), g), v < 0, prec, width, g)
  {
    hide StandardField, Digits;
    var g := IntegerFlags(f, conv);
    if v != 0 {
      KeptDenotes(Magnitude(v), BaseOf(conv), g);
    } else {
      ZeroDigits(BaseOf(conv), g);
      if prec > 0 {
        ZeroValueField(v < 0, prec, width, g);
      }
    }
  }

  // More digits than the scratch buffer holds: no text of the standard has so few characters.
  lemma TooManyDigits(conv: char, f: Flags, width: u32, prec: u32, v: int)
    requires Power(BaseOf(conv), SCRATCH) <= Magnitude(v)
    ensures |Ink(IntegerText(conv, f, width, prec, v))| <= SCRATCH
    ensures |Digits(Magnitude(v), BaseOf(conv), IntegerFlags(f, conv).upper)| > SCRATCH
  {
    hide Field, Ink, Digits;
    var g, base := IntegerFlags(f, conv), BaseOf(conv);
    var g1 := if v == 0 then g.(hash := false) else g;
    FieldInk(Kept(Magnitude(v), base, g1), v < 0, base, prec, width, g1);
    DigitsLonger(Magnitude(v), base, g.upper, SCRATCH);
  }

  lemma DigitsBlankFree(v: nat, base: nat, upper: bool)
    requires 2 <= base <= 16
    ensures ' ' !in Digits(v, base, upper)
  {
    DigitsText(v, base, upper);
  }

  lemma FittingExact(conv: char, f: Flags, width: u32, prec: u32, v: int)
    requires Magnitude(v) < Power(BaseOf(conv), SCRATCH) && !IntegerFlags(f, conv).hash
    ensures var g := IntegerFlags(f, conv);
      IntegerText(conv, f, width, prec, v) == StandardText(conv, f, width, prec, v)
      <==> MeetsStandard(Kept(Magnitude(v), BaseOf(conv), g), v < 0, prec, width, g)
  {
    hide Field, StandardField, MeetsStandard, StandardText, NumberText, Kept;
    var g, base := IntegerFlags(f, conv), BaseOf(conv);
    var kept := Kept(Magnitude(v), base, g);
    KeptText(Magnitude(v), base, g);
    NumberTextField(Magnitude(v), v < 0, base, prec, width, g);
    LayoutExact(kept, v < 0, base, prec, width, g);
    StandardKept(conv, f, width, prec, v);
  }

  // For every integer conversion without '#', the code prints what the standard says exactly when the
  // digits fit the scratch buffer and MeetsStandard holds.
  lemma ConversionExact(conv: char, f: Flags, width: u32, prec: u32, v: int)
    requires !IntegerFlags(f, conv).hash
    ensures var g := IntegerFlags(f, conv);
      IntegerText(conv, f, width, prec, v) == StandardText(conv, f, width, prec, v)
      <==> Magnitude(v) < Power(BaseOf(conv), SCRATCH)
           && MeetsStandard(Kept(Magnitude(v), BaseOf(conv), g), v < 0, prec, width, g)
  {
    hide Field, StandardField, MeetsStandard, NumberText, IntegerText, Kept, Digits, Ink;
    var g, base := IntegerFlags(f, conv), BaseOf(conv);
    if Magnitude(v) < Power(base, SCRATCH) {
      FittingExact(conv, f, width, prec, v);
    } else {
      TooManyDigits(conv, f, width, prec, v);
      DigitsBlankFree(Magnitude(v), base, g.upper);
      StandardInk(Digits(Magnitude(v), base, g.upper), v < 0, prec, width, g);
    }
  }

  // When it does, the field has exactly the width asked for, or what sign, zeros and digits need.
  lemma FieldLength(conv: char, f: Flags, width: u32, prec: u32, v: int)
    requires Magnitude(v) < Power(BaseOf(conv), SCRATCH) && !IntegerFlags(f, conv).hash
    requires var g := IntegerFlags(f, conv);
      MeetsStandard(Kept(Magnitude(v), BaseOf(conv), g), v < 0, prec, width, g)
    ensures var g := IntegerFlags(f, conv);
      |IntegerText(conv, f, width, prec, v)|
      == Max(width, |Sign(v < 0, g)| + Max(|Kept(Magnitude(v), BaseOf(conv), g)|, prec))
  {
    hide Field, StandardField, MeetsStandard, StandardText, NumberText, IntegerText, Kept;
    var g := IntegerFlags(f, conv);
    ConversionExact(conv, f, width, prec, v);
    StandardKept(conv, f, width, prec, v);
    StandardFieldLength(Kept(Magnitude(v), BaseOf(conv), g), v < 0, prec, width, g);
  }

  // "%-5.3d" of 7 lacks the zeros that the precision asks for.
  lemma LeftPrecisionFails()
    ensures var f := NO_FLAGS.(left := true, precision := true);
      IntegerText('d', f, 5, 3, 7) == "7    " && StandardText('d', f, 5, 3, 7) == "007  "
  {
    var f := NO_FLAGS.(left := true, precision := true);
    assert Digits(7, 10, false) == "7";
    assert "" + "7" + Repeat(' ', 4) == "7    ";
    assert Repeat('0', 2) + "7" == "007";
    assert "" + "007" + Repeat(' ', 2) == "007  ";
  }

  lemma HexDigits(f: Flags)
    requires !f.upper && !f.precision
    ensures Kept(0x1234, 16, f) == "1234"
  {
    assert Digits(0x1, 16, false) == "1";
    assert Digits(0x12, 16, false) == "12";
    assert Digits(0x123, 16, false) == "123";
  }

  // "%#4x" of 0x1234 loses its two leading digits to the prefix.
  lemma HashFails()
    ensures IntegerText('x', NO_FLAGS.(hash := true), 4, 0, 0x1234) == "0x34"
  {
    var f := NO_FLAGS.(hash := true);
    HexDigits(f);
    hide Kept;
    assert Repeat('0', -4) + "1234" == "1234" && "1234"[2..] == "34";
    assert Prefixed("1234", 16, 0, 4, f) == ['0'] + (['x'] + "34") == "0x34";
    assert "" + "0x34" == "0x34" && Repeat(' ', 0) + "0x34" + "" == "0x34";
    assert Field("1234", false, 16, 0, 4, f) == "0x34";
  }

  // ---------- Printing a number and parsing it again ----------

  lemma {:induction false} DigitsAreDecimal(v: nat)
    ensures forall c | c in Digits(v, 10, false) :: IsDigit(c)
    decreases v
  {
    if v >= 10 {
      DigitsAreDecimal(v / 10);
    }
  }

  lemma {:induction false} PrefixValue(s: string, k: nat)
    requires k <= |s|
    ensures Value(s[..k], 10) <= Value(s, 10)
    decreases |s|
  {
    if k == |s| {
      assert s[..k] == s;
    } else {
      PrefixValue(s[..|s| - 1], k);
      assert s[..|s| - 1][..k] == s[..k];
    }
  }

  lemma {:induction false} RunOverDigits(s: CString, i: nat, n: nat)
    requires i <= n <= |s| && (forall k | i <= k < n :: IsDigit(s[k])) && !IsDigit(At(s, n))
    ensures DigitRun(s, i) == n
    decreases n - i
  {
    if i < n {
      RunOverDigits(s, i + 1, n);
    }
  }

  // Whatever follows the decimal digits, _atoi reads back the value and stops behind them, and no
  // intermediate value exceeds it.
  lemma ParseDigits(v: u32, rest: CString)
    requires !IsDigit(At(rest, 0))
    ensures var digits := Digits(v, 10, false);
      && '\0' !in digits + rest
      && DigitRun(digits + rest, 0) == |digits| && NumberAt(digits + rest, 0) == v
      && forall k | 0 <= k <= |digits| :: Value(digits[..k], 10) <= v
  {
    hide Digits;
    var digits := Digits(v, 10, false);
    var s := digits + rest;
    DigitsAreDecimal(v);
    DigitsDenote(v, 10, false);
    assert forall k | 0 <= k < |digits| :: s[k] == digits[k] && digits[k] in digits;
    assert At(s, |digits|) == At(rest, 0);
    RunOverDigits(s, 0, |digits|);
    assert s[0..|digits|] == digits;
    forall k | 0 <= k <= |digits| ensures Value(digits[..k], 10) <= v {
      PrefixValue(digits, k);
    }
  }

  lemma PlainText(v: u32)
    ensures IntegerText('u', NO_FLAGS, 0, 0, v) == Digits(v, 10, false)
  {
    hide Digits, Power, Value;
    PowerScratch(10);
    var digits := Digits(v, 10, false);
    DigitCount(v, 10, false, SCRATCH);
    assert Kept(v, 10, NO_FLAGS) == digits;
    NumberTextField(v, false, 10, 0, 0, NO_FLAGS);
    assert "" + ("" + (Repeat('0', 0 - |digits|) + digits)) + "" == digits;
  }

  lemma PlainUnsigned(v: u32)
    ensures Render("%u", 0, [Word(v)]) == Some(Digits(v, 10, false))
  {
    hide IntegerText, Digits;
    var item := Directive("", Absent, Absent, Plain, 'u');
    assert "%u"[1..1] == "";
    assert FlagRun("%u", 1) == 1 && WidthAt("%u", 1) == (Absent, 1) && PrecisionAt("%u", 1) == (Absent, 1);
    assert LengthAt("%u", 1) == (Plain, 1);
    assert ItemAt("%u", 0) == Some((item, 2));
    assert Parse("%u", 2) == Some([]);
    assert [item] + [] == [item];
    assert Parse("%u", 0) == Some([item]);
    assert SetupOf(item, [Word(v)]) == Some(Setup(NO_FLAGS, 0, 0, [Word(v)]));
    PlainText(v);
    var digits := Digits(v, 10, false);
    assert [Word(v)][1..] == [];
    assert RenderItem(item, [Word(v)]) == Some((digits, []));
    assert RenderItems([item][1..], []) == Some("");
    assert digits + "" == digits;
  }

  // Printing a number with "%u" and parsing the text again gives the number.
  lemma PrintThenParse(v: u32, rest: CString)
    requires !IsDigit(At(rest, 0))
    ensures Render("%u", 0, [Word(v)]).Some?
    ensures var digits := Render("%u", 0, [Word(v)]).value;
      && '\0' !in digits + rest
      && DigitRun(digits + rest, 0) == |digits| && NumberAt(digits + rest, 0) == v
  {
    hide Render, Digits, DigitRun, NumberAt;
    PlainUnsigned(v);
    ParseDigits(v, rest);
  }
}

/** A negative '*' precision: C11 takes it as none, the code as 0. When the two print the same. */
module PrintfPrecision {
  import opened Machine
  import opened Text
  import opened PrintfField
  import opened PrintfFormat
  import opened PrintfTheorems
  import opened PrintfAlternative

  // A negative '*' precision should count as none; the code takes it as 0.
  predicate NegativePrecisionHarmless(conv: char, f: Flags, width: nat, v: int) {
    v != 0 && (f.left || !f.zeropad
               || width <= |Sign(v < 0, IntegerFlags(f, conv))| + |Digits(Magnitude(v), BaseOf(conv), conv == 'X')|)
  }

  lemma EmptyField(negative: bool, width: u32, g: Flags, g1: Flags, digits: string)
    requires digits == "0" && g1.left == g.left && !g1.zeropad && Sign(negative, g1) == Sign(negative, g)
    ensures StandardField("", negative, 0, width, g1) != StandardField(digits, negative, 0, width, g)
  {
    var s := Sign(negative, g);
    var code, standard := StandardField("", negative, 0, width, g1), StandardField(digits, negative, 0, width, g);
    StandardFieldLength("", negative, 0, width, g1);
    StandardFieldLength(digits, negative, 0, width, g);
    if width > |s| {
      if g.left {
        assert code[|s|] == ' ' && standard[|s|] == '0';
      } else {
        assert standard[|standard| - 1] == '0';
        assert code[|code| - 1] == if s == "" then ' ' else s[0];
      }
    }
  }

  lemma BlanksOrZeros(digits: string, negative: bool, width: u32, g: Flags, g1: Flags)
    requires digits != "" && g1.left == g.left && !g1.zeropad && Sign(negative, g1) == Sign(negative, g)
    ensures StandardField(digits, negative, 0, width, g1) == StandardField(digits, negative, 0, width, g)
            <==> g.left || !g.zeropad || width <= |Sign(negative, g)| + |digits|
  {
    var s := Sign(negative, g);
    var code, standard := StandardField(digits, negative, 0, width, g1), StandardField(digits, negative, 0, width, g);
    StandardFieldLength(digits, negative, 0, width, g1);
    StandardFieldLength(digits, negative, 0, width, g);
    if !g.left && g.zeropad {
      assert Repeat('0', -|digits|) + digits == digits;
      if width > |s| + |digits| {
        assert standard[|s|] == '0';
        assert code[|s|] == ' ' || code[0] == ' ';
      }
    }
  }

  lemma ZeroAndBlankFill(conv: char, f: Flags, f1: Flags, width: u32, v: int, digits: string)
    requires !f.precision && f1 == f.(precision := true) && digits == Digits(Magnitude(v), BaseOf(conv), conv == 'X')
    requires v == 0 ==> digits == "0"
    ensures StandardField(if v == 0 then "" else digits, v < 0, 0, width, IntegerFlags(f1, conv))
            == StandardField(digits, v < 0, 0, width, IntegerFlags(f, conv))
            <==> NegativePrecisionHarmless(conv, f, width, v)
  {
    hide StandardField, Digits;
    var g, g1 := IntegerFlags(f, conv), IntegerFlags(f1, conv);
    assert Sign(v < 0, g1) == Sign(v < 0, g);
    if v == 0 {
      EmptyField(v < 0, width, g, g1, digits);
    } else {
      BlanksOrZeros(digits, v < 0, width, g, g1);
    }
  }

  lemma SignedDigitsFit(conv: char, v: int, g: Flags)
    requires g.upper == (conv == 'X') && (IsSigned(conv) ==> Magnitude(v) < U64)
    ensures IsSigned(conv) ==> |Digits(Magnitude(v), BaseOf(conv), g.upper)| < SCRATCH
  {
    if IsSigned(conv) {
      assert Power(10, 4) == 10000;
      PowerAdd(10, 4, 4);
      PowerAdd(10, 8, 8);
      PowerAdd(10, 16, 8);
      DigitCount(Magnitude(v), 10, g.upper, 24);
    }
  }

  // With a precision of 0 the code always meets the standard.
  lemma PrecisionZeroMeets(conv: char, f1: Flags, width: u32, v: int)
    requires Magnitude(v) < Power(BaseOf(conv), SCRATCH) && f1.precision
    requires IsSigned(conv) ==> Magnitude(v) < U64
    ensures var g1 := IntegerFlags(f1, conv);
      MeetsStandard(Kept(Magnitude(v), BaseOf(conv), g1), v < 0, 0, width, g1) || (v < 0 && !IsSigned(conv))
  {
    hide Digits, Value, Power;
    var g1 := IntegerFlags(f1, conv);
    SignedDigitsFit(conv, v, g1);
    KeptDenotes(Magnitude(v), BaseOf(conv), g1);
  }

  lemma NegativePrecisionText(conv: char, f1: Flags, width: u32, v: int)
    requires Magnitude(v) < Power(BaseOf(conv), SCRATCH) && !IntegerFlags(f1, conv).hash && f1.precision
    requires if IsSigned(conv) then Magnitude(v) < U64 else v >= 0
    ensures IntegerText(conv, f1, width, 0, v) == StandardText(conv, f1, width, 0, v)
  {
    PrecisionZeroMeets(conv, f1, width, v);
    hide IntegerText, StandardText, MeetsStandard, Kept, Digits;
    ConversionExact(conv, f1, width, 0, v);
  }

  lemma StandardWithZero(conv: char, f: Flags, f1: Flags, width: u32, v: int)
    requires !f.precision && f1.precision
    ensures var digits := Digits(Magnitude(v), BaseOf(conv), conv == 'X');
      && (v == 0 ==> digits == "0")
      && StandardText(conv, f, width, 0, v) == StandardField(digits, v < 0, 0, width, IntegerFlags(f, conv))
      && StandardText(conv, f1, width, 0, v)
         == StandardField(if v == 0 then "" else digits, v < 0, 0, width, IntegerFlags(f1, conv))
  {
    hide StandardField;
  }

  lemma StandardTooLong(conv: char, f: Flags, width: u32, v: int)
    requires !f.precision && Power(BaseOf(conv), SCRATCH) <= Magnitude(v)
    ensures |Ink(StandardText(conv, f, width, 0, v))| > SCRATCH
  {
    hide StandardField, Digits, Ink;
    var g, base := IntegerFlags(f, conv), BaseOf(conv);
    DigitsBlankFree(Magnitude(v), base, g.upper);
    DigitsLonger(Magnitude(v), base, g.upper, SCRATCH);
    StandardInk(Digits(Magnitude(v), base, g.upper), v < 0, 0, width, g);
  }

  lemma NegativePrecisionFits(conv: char, f: Flags, f1: Flags, width: u32, v: int)
    requires !IntegerFlags(f, conv).hash && !f.precision && f1 == f.(precision := true)
    requires if IsSigned(conv) then Magnitude(v) < U64 else v >= 0
    requires Magnitude(v) < Power(BaseOf(conv), SCRATCH)
    ensures IntegerText(conv, f1, width, 0, v) == StandardText(conv, f, width, 0, v)
            <==> NegativePrecisionHarmless(conv, f, width, v)
  {
    hide IntegerText, StandardField, StandardText, NegativePrecisionHarmless, Digits;
    StandardWithZero(conv, f, f1, width, v);
    NegativePrecisionText(conv, f1, width, v);
    ZeroAndBlankFill(conv, f, f1, width, v, Digits(Magnitude(v), BaseOf(conv), conv == 'X'));
  }

  lemma NegativePrecisionExact(conv: char, f: Flags, width: u32, v: int)
    requires !IntegerFlags(f, conv).hash && !f.precision
    requires if IsSigned(conv) then Magnitude(v) < U64 else v >= 0
    ensures IntegerText(conv, f.(precision := true), width, 0, v) == StandardText(conv, f, width, 0, v)
            <==> Magnitude(v) < Power(BaseOf(conv), SCRATCH) && NegativePrecisionHarmless(conv, f, width, v)
  {
    hide IntegerText, StandardField, StandardText, NegativePrecisionHarmless, Digits, Ink;
    var f1, base := f.(precision := true), BaseOf(conv);
    if Magnitude(v) < Power(base, SCRATCH) {
      NegativePrecisionFits(conv, f, f1, width, v);
    } else {
      StandardTooLong(conv, f, width, v);
      TooManyDigits(conv, f1, width, 0, v);
    }
  }

  // ---------- With '#' ----------

  // With '#' the fill behind the mark is lost as well, and the digits must leave room for it.
  predicate NegativePrecisionKeepsForm(base: nat, f: Flags, width: nat, n: nat) {
    var mark := if base == 8 then 1 else 2;
    n + mark <= SCRATCH && (f.left || !f.zeropad || width <= n + mark)
  }

  // The 0 of a zero value is lost.
  lemma ZeroWithPrecision(conv: char, f: Flags, width: u32)
    requires IntegerFlags(f, conv).hash && !f.precision
    ensures IntegerText(conv, f.(precision := true), width, 0, 0) != StandardAlternative(conv, f, width, 0, 0)
  {
    hide Justified, Field, Ink;
    var f1 := f.(precision := true);
    var g, g1, base := IntegerFlags(f, conv), IntegerFlags(f1, conv).(hash := false), BaseOf(conv);
    ZeroDigits(base, g1);
    UnsignedField("", base, 0, width, g1);
    assert CodeBody("", base, 0, width, g1) == "";
    InkJustified("", width, g1);
    InkAll("");
    AlternativeInk("0", base, 0, width, "", g);
    assert Digits(0, base, g.upper) == "0";
  }

  lemma DigitsNotEmpty(v: nat, base: nat, upper: bool)
    requires 2 <= base <= 16 && v > 0
    ensures Digits(v, base, upper) != "" && Digits(v, base, upper)[0] != '0'
    ensures Power(base, SCRATCH) <= v ==> |Digits(v, base, upper)| > SCRATCH
  {
    NoLeadingZero(v, base, upper);
    if Power(base, SCRATCH) <= v {
      DigitsLonger(v, base, upper, SCRATCH);
    }
  }

  lemma CodeIsShort(conv: char, f: Flags, width: u32, v: nat)
    ensures |Ink(IntegerText(conv, f, width, 0, v))| <= SCRATCH
  {
    hide Field, Ink, Digits;
    var g, base := IntegerFlags(f, conv), BaseOf(conv);
    var g1 := if v == 0 then g.(hash := false) else g;
    FieldInk(Kept(v, base, g1), false, base, 0, width, g1);
  }

  lemma AlternativeIsLong(digits: string, base: nat, width: u32, mark: string, g: Flags)
    requires ' ' !in digits && base in {2, 8, 16} && mark == Mark(base, g.upper) && digits != "" && digits[0] != '0'
    ensures |Ink(Justified(AlternativeBody(digits, base, 0, width, mark, g), width, g))|
            >= |digits| + if base == 8 then 1 else 2
  {
    hide Justified, Ink, Number;
    AlternativeInk(digits, base, 0, width, mark, g);
    NumberLength(digits, base, 0);
  }

  lemma FillExact(digits: string, base: nat, width: u32, mark: string, g: Flags, g1: Flags)
    requires ' ' !in digits && base in {2, 8, 16} && mark == Mark(base, g.upper) && digits != "" && digits[0] != '0'
    requires g1.left == g.left && !g1.zeropad
    ensures Justified(AlternativeBody(digits, base, 0, width, mark, g1), width, g1)
            == Justified(AlternativeBody(digits, base, 0, width, mark, g), width, g)
            <==> g.left || !g.zeropad || width <= |digits| + if base == 8 then 1 else 2
  {
    hide Ink, Number;
    NumberLength(digits, base, 0);
    var number := Number(digits, base, 0);
    var body := AlternativeBody(digits, base, 0, width, mark, g);
    var body1 := AlternativeBody(digits, base, 0, width, mark, g1);
    assert |body1| == |mark| + |number| == |digits| + if base == 8 then 1 else 2;
    if !g.left && g.zeropad {
      if width <= |body1| {
        assert Repeat('0', width - |mark| - |number|) == "" && body == body1;
      } else {
        hide Justified, AlternativeBody;
        AlternativeInk(digits, base, 0, width, mark, g);
        AlternativeInk(digits, base, 0, width, mark, g1);
      }
    }
  }

  lemma NonzeroFits(conv: char, f: Flags, f1: Flags, width: u32, v: nat)
    requires IntegerFlags(f, conv).hash && !f.precision && f1 == f.(precision := true)
    requires 0 < v < Power(BaseOf(conv), SCRATCH)
    requires |Digits(v, BaseOf(conv), conv == 'X')| + (if BaseOf(conv) == 8 then 1 else 2) <= SCRATCH
    ensures IntegerText(conv, f1, width, 0, v) == StandardAlternative(conv, f, width, 0, v)
            <==> NegativePrecisionKeepsForm(BaseOf(conv), f, width, |Digits(v, BaseOf(conv), conv == 'X')|)
  {
    hide IntegerText, StandardAlternative, Digits, Justified, AlternativeBody, Kept, CodeBody, Mark;
    var g, g1, base := IntegerFlags(f, conv), IntegerFlags(f1, conv), BaseOf(conv);
    var digits, mark := Digits(v, base, g.upper), Mark(base, g.upper);
    AlternativeText(conv, f, width, 0, v);
    AlternativeText(conv, f1, width, 0, v);
    AlternativeExact(conv, f1, width, 0, v);
    DigitsBlankFree(v, base, g.upper);
    DigitsNotEmpty(v, base, g.upper);
    FillExact(digits, base, width, mark, g, g1);
  }

  lemma NonzeroTooLong(conv: char, f: Flags, f1: Flags, width: u32, v: nat)
    requires IntegerFlags(f, conv).hash && !f.precision && v > 0
    requires Power(BaseOf(conv), SCRATCH) <= v
             || |Digits(v, BaseOf(conv), conv == 'X')| + (if BaseOf(conv) == 8 then 1 else 2) > SCRATCH
    ensures IntegerText(conv, f1, width, 0, v) != StandardAlternative(conv, f, width, 0, v)
  {
    hide IntegerText, StandardAlternative, Digits, Justified, AlternativeBody, Kept, CodeBody, Ink;
    var g, base := IntegerFlags(f, conv), BaseOf(conv);
    var digits := Digits(v, base, g.upper);
    AlternativeText(conv, f, width, 0, v);
    DigitsBlankFree(v, base, g.upper);
    DigitsNotEmpty(v, base, g.upper);
    CodeIsShort(conv, f1, width, v);
    AlternativeIsLong(digits, base, width, Mark(base, g.upper), g);
  }

  lemma NonzeroWithPrecision(conv: char, f: Flags, width: u32, v: nat)
    requires IntegerFlags(f, conv).hash && !f.precision && v > 0
    ensures var n := |Digits(v, BaseOf(conv), conv == 'X')|;
      IntegerText(conv, f.(precision := true), width, 0, v) == StandardAlternative(conv, f, width, 0, v)
      <==> v < Power(BaseOf(conv), SCRATCH) && NegativePrecisionKeepsForm(BaseOf(conv), f, width, n)
  {
    hide IntegerText, StandardAlternative, Digits;
    var base, f1 := BaseOf(conv), f.(precision := true);
    if v < Power(base, SCRATCH) && |Digits(v, base, conv == 'X')| + (if base == 8 then 1 else 2) <= SCRATCH {
      NonzeroFits(conv, f, f1, width, v);
    } else {
      NonzeroTooLong(conv, f, f1, width, v);
    }
  }

  lemma NegativePrecisionAlternative(conv: char, f: Flags, width: u32, v: nat)
    requires IntegerFlags(f, conv).hash && !f.precision
    ensures var n := |Digits(v, BaseOf(conv), conv == 'X')|;
      IntegerText(conv, f.(precision := true), width, 0, v) == StandardAlternative(conv, f, width, 0, v)
      <==> 0 < v < Power(BaseOf(conv), SCRATCH) && NegativePrecisionKeepsForm(BaseOf(conv), f, width, n)
  {
    if v == 0 {
      ZeroWithPrecision(conv, f, width);
    } else {
      NonzeroWithPrecision(conv, f, width, v);
    }
  }

  // ---------- Strings ----------

  predicate InkFree(s: string) {
    forall i | 0 <= i < |s| :: s[i] == ' '
  }

  lemma {:induction false} InkNone(s: string)
    ensures Ink(s) == "" <==> InkFree(s)
    decreases |s|
  {
    if s != "" {
      InkNone(s[1..]);
      assert forall i | 1 <= i < |s| :: s[i] == s[1..][i - 1];
    }
  }

  lemma AlignedInk(s: string, width: u32, f: Flags)
    ensures Ink(Aligned(s, width, f)) == Ink(s)
  {
    InkJustified(s, width, f.(zeropad := false));
  }

  lemma AlignedBlanks(s: string, width: u32, f: Flags, f1: Flags)
    requires InkFree(s) && |s| <= width && f1.left == f.left
    ensures Aligned(s, width, f) == Aligned("", width, f1)
  {
  }

  // A string with a negative '*' precision is printed whole exactly when it is empty, or made of blanks that
  // the field's own blanks stand in for.
  lemma NegativePrecisionString(s: CString, f: Flags, width: u32)
    requires !f.precision
    ensures var f1 := f.(precision := true);
      Aligned(Cut(s, 0, f1), width, f1) == Aligned(Cut(s, 0, f), width, f)
      <==> s == "" || (|s| <= width && InkFree(s))
  {
    hide Aligned, Ink;
    var f1 := f.(precision := true);
    assert Cut(s, 0, f1) == "" && Cut(s, 0, f) == s;
    AlignedInk("", width, f1);
    AlignedInk(s, width, f);
    InkNone(s);
    InkNone("");
    if |s| <= width && InkFree(s) {
      AlignedBlanks(s, width, f, f1);
    }
  }

  // ---------- Inputs that fail ----------

  lemma StarItem(fmt: CString, item: Item)
    requires fmt == "%.*d" || fmt == "%.*s"
    requires item == Directive("", Absent, FromArg, Plain, fmt[3])
    ensures ItemAt(fmt, 0) == Some((item, 4))
  {
    assert fmt[1..1] == "";
    assert FlagRun(fmt, 1) == 1 && WidthAt(fmt, 1) == (Absent, 1) && WidthAt(fmt, 2) == (FromArg, 3);
    assert PrecisionAt(fmt, 1) == (FromArg, 3) && LengthAt(fmt, 3) == (Plain, 3);
  }

  lemma StarSetup(item: Item, arg: Arg)
    requires item.Directive? && item.flags == "" && item.width == Absent && item.precision == FromArg
    requires item.length == Plain
    ensures SetupOf(item, [Word(U32 - 1), arg]) == Some(Setup(NO_FLAGS.(precision := true), 0, 0, [arg]))
  {
    assert [Word(U32 - 1), arg][1..] == [arg];
    assert FlagsOf("") == NO_FLAGS;
  }

  lemma RenderOne(fmt: CString, item: Item, args: seq<Arg>, text: string)
    requires |fmt| == 4 && ItemAt(fmt, 0) == Some((item, 4)) && RenderItem(item, args) == Some((text, []))
    ensures Render(fmt, 0, args) == Some(text)
  {
    hide ItemAt, RenderItem;
    assert Parse(fmt, 4) == Some([]);
    assert [item] + [] == [item];
    assert Parse(fmt, 0) == Some([item]);
    assert RenderItems([item][1..], []) == Some("");
    assert text + "" == text;
  }

  lemma EmptyDecimal()
    ensures IntegerText('d', NO_FLAGS.(precision := true), 0, 0, 0) == ""
    ensures StandardText('d', NO_FLAGS, 0, 0, 0) == "0"
  {
    var f1 := NO_FLAGS.(precision := true);
    ZeroDigits(10, f1);
    hide Digits;
    assert Kept(0, 10, f1) == "" && Repeat('0', 0) == "" && Repeat(' ', 0) == "";
    assert Field("", false, 10, 0, 0, f1) == "";
    assert Digits(0, 10, false) == "0" && Repeat('0', -1) == "";
  }

  lemma EmptyAligned(f: Flags)
    ensures Aligned("", 0, f) == ""
  {
  }

  // "%.*d" of 0 with the precision -1 prints nothing; without a precision it is "0".
  lemma NegativePrecisionFails()
    ensures Render("%.*d", 0, [Word(U32 - 1), Word(0)]) == Some("")
    ensures StandardText('d', NO_FLAGS, 0, 0, 0) == "0"
  {
    hide IntegerText, SetupOf, StandardText, Render, Parse, ItemAt;
    var item := Directive("", Absent, FromArg, Plain, 'd');
    StarItem("%.*d", item);
    StarSetup(item, Word(0));
    EmptyDecimal();
    assert "diuxXob"[0] == 'd' && [Word(0)][1..] == [];
    assert RenderDirective('d', NO_FLAGS.(precision := true), 0, 0, [Word(0)]) == Some(("", []));
    RenderOne("%.*d", item, [Word(U32 - 1), Word(0)], "");
  }

  // "%.*s" of "abc" with the precision -1 prints nothing.
  lemma NegativePrecisionStringFails()
    ensures Render("%.*s", 0, [Word(U32 - 1), Str("abc")]) == Some("")
  {
    hide Aligned, IntegerText, NumberText, IntegerOf, SetupOf, Render, Parse, ItemAt;
    var item := Directive("", Absent, FromArg, Plain, 's');
    StarItem("%.*s", item);
    StarSetup(item, Str("abc"));
    var f1 := NO_FLAGS.(precision := true);
    EmptyAligned(f1);
    assert Cut("abc", 0, f1) == "" && [Str("abc")][1..] == [];
    assert RenderDirective('s', f1, 0, 0, [Str("abc")]) == Some(("", []));
    RenderOne("%.*s", item, [Word(U32 - 1), Str("abc")], "");
  }
}

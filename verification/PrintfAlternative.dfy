/** The '#' flag: when the code prints the alternative form of section 7.21.6.1 of C11. */
module PrintfAlternative {
  import opened Machine
  import opened Text
  import opened PrintfField
  import opened PrintfFormat
  import opened PrintfTheorems

  // ---------- The alternative form ----------

  // What stands in front of a nonzero hexadecimal or binary number.
  function Mark(base: nat, upper: bool): string {
    if base == 16 then (if upper then "0X" else "0x") else if base == 2 then "0b" else ""
  }

  // Zeros up to the precision, which '#' raises in octal so far that the first digit is 0.
  function Number(digits: string, base: nat, prec: nat): string {
    var number := Repeat('0', prec - |digits|) + digits;
    if base == 8 && (number == "" || number[0] != '0') then "0" + number else number
  }

  // Mark, zero fill and number.
  function AlternativeBody(digits: string, base: nat, prec: nat, width: nat, mark: string, f: Flags): string {
    var number := Number(digits, base, prec);
    mark + (if f.zeropad && !f.left then Repeat('0', width - |mark| - |number|) else "") + number
  }

  function StandardAlternative(conv: char, f: Flags, width: u32, prec: nat, v: nat): string {
    var g, base := IntegerFlags(f, conv), BaseOf(conv);
    var digits := if v == 0 && f.precision && prec == 0 then "" else Digits(v, base, g.upper);
    Justified(AlternativeBody(digits, base, prec, width, if v == 0 then "" else Mark(base, g.upper), g), width, g)
  }

  // The exact condition for a nonzero number of n digits.
  predicate MeetsAlternative(n: nat, base: nat, prec: nat, width: nat, f: Flags) {
    var room := if base == 8 then SCRATCH - 1 else SCRATCH - 2;
    if f.precision then
      if f.left then n <= room && prec <= (if base == 8 then n + 1 else n)
      else if base == 8 then prec <= n <= room || n < prec == SCRATCH
      else Max(n, prec) <= room
    else if f.zeropad && !f.left && n <= width then
      if base == 8 then n < width <= SCRATCH
      else if base == 16 then n + 2 <= width <= SCRATCH
      else width == n + 1 && n <= room
    else n != width && n <= room
  }

  // And for the value 0.
  predicate ZeroMeetsAlternative(base: nat, prec: nat, width: nat, f: Flags) {
    && !(base == 8 && f.precision && prec == 0)
    && MeetsStandard(if f.precision then "" else "0", false, prec, width, f)
  }

  // ---------- Bodies ----------

  // Justified texts without blanks of their own are equal when the texts are.
  lemma JustifiedInk(x: string, y: string, width: u32, f: Flags)
    requires ' ' !in x && ' ' !in y
    ensures Justified(x, width, f) == Justified(y, width, f) <==> x == y
  {
    hide Justified, Ink;
    InkJustified(x, width, f);
    InkJustified(y, width, f);
    InkAll(x);
    InkAll(y);
  }

  // What the code stores for the digits of an unsigned conversion.
  function CodeBody(digits: string, base: nat, prec: u32, width: u32, f: Flags): string {
    Prefixed(ZeroExtended(digits, prec, width, f), base, prec, width, f)
  }

  lemma UnsignedField(digits: string, base: nat, prec: u32, width: u32, f: Flags)
    requires !f.plus && !f.space
    ensures Field(digits, false, base, prec, width, f) == Justified(CodeBody(digits, base, prec, width, f), width, f)
  {
    hide Justified, Prefixed, ZeroExtended;
    var body := CodeBody(digits, base, prec, width, f);
    assert "" + body == body;
  }

  function Letter(base: nat, upper: bool): string {
    if base == 16 then (if upper then "X" else "x") else if base == 2 then "b" else ""
  }

  // Letter and 0 in front of a text, as far as the scratch buffer has room.
  function WithPrefix(text: string, base: nat, upper: bool): string {
    var letter := Letter(base, upper);
    if |text| == SCRATCH then text
    else if |letter + text| < SCRATCH then "0" + letter + text
    else letter + text
  }

  lemma CodeBodyNoDrop(body: string, base: nat, prec: u32, width: u32, f: Flags)
    requires f.hash && base in {2, 8, 16} && |body| <= SCRATCH && (f.precision || (|body| != prec && |body| != width))
    ensures Prefixed(body, base, prec, width, f) == WithPrefix(body, base, f.upper)
  {
    HashedBody(body, base, prec, width, f, 0);
    assert body[0..] == body;
  }

  lemma CodeBodyDrop(body: string, base: nat, width: u32, f: Flags, drop: nat)
    requires f.hash && base in {2, 8, 16} && 0 < |body| <= SCRATCH && !f.precision && |body| == width
    requires drop == if base == 16 && |body| > 1 then 2 else 1
    ensures Prefixed(body, base, 0, width, f) == WithPrefix(body[drop..], base, f.upper)
  {
    HashedBody(body, base, 0, width, f, drop);
  }

  lemma PrefixLength(text: string, base: nat, upper: bool)
    requires base in {2, 8, 16} && |text| <= SCRATCH
    ensures |WithPrefix(text, base, upper)| == Min(SCRATCH, |text| + if base == 8 then 1 else 2)
    ensures |text| + (if base == 8 then 1 else 2) <= SCRATCH ==>
              WithPrefix(text, base, upper) == (if base == 8 then "0" else Mark(base, upper)) + text
  {
    var letter := Letter(base, upper);
    assert base == 8 ==> "0" + letter == "0" && letter + text == text;
    assert base != 8 ==> "0" + letter == Mark(base, upper);
  }

  // The number is as long as its precision and, in octal, its leading 0 ask for.
  lemma NumberLength(digits: string, base: nat, prec: nat)
    requires digits != "" && digits[0] != '0'
    ensures |Number(digits, base, prec)| == if base == 8 && prec <= |digits| then |digits| + 1 else Max(|digits|, prec)
    ensures Number(digits, base, prec)
            == (if base == 8 && prec <= |digits| then "0" else Repeat('0', prec - |digits|)) + digits
  {
    assert prec <= |digits| ==> Repeat('0', prec - |digits|) + digits == digits;
    assert prec > |digits| ==> (Repeat('0', prec - |digits|) + digits)[0] == '0';
  }

  lemma PrecisionBodyMeets(digits: string, body: string, base: nat, prec: u32, width: u32, f: Flags)
    requires base in {2, 8, 16} && f.precision && !f.zeropad && body == ZeroExtended(digits, prec, width, f)
    requires 0 < |digits| <= SCRATCH && digits[0] != '0' && MeetsAlternative(|digits|, base, prec, width, f)
    ensures WithPrefix(body, base, f.upper) == Mark(base, f.upper) + "" + Number(digits, base, prec)
  {
    hide Number;
    NumberLength(digits, base, prec);
    if base == 8 && !f.left && prec == SCRATCH && |digits| < prec {
      assert |body| == SCRATCH;
    } else {
      hide WithPrefix;
      PrefixLength(body, base, f.upper);
      assert f.left ==> Repeat('0', prec - |digits|) == if prec > |digits| then "0" else "";
      assert "0" + digits == [('0')] + digits;
    }
  }

  // With a precision nothing is dropped and nothing is filled with zeros.
  lemma PrecisionBody(digits: string, base: nat, prec: u32, width: u32, f: Flags)
    requires f.hash && base in {2, 8, 16} && f.precision && !f.zeropad
    requires 0 < |digits| <= SCRATCH && digits[0] != '0'
    ensures CodeBody(digits, base, prec, width, f)
            == AlternativeBody(digits, base, prec, width, Mark(base, f.upper), f)
            <==> MeetsAlternative(|digits|, base, prec, width, f)
  {
    hide Prefixed, WithPrefix, Number;
    var n, mark := |digits|, Mark(base, f.upper);
    var body := ZeroExtended(digits, prec, width, f);
    CodeBodyNoDrop(body, base, prec, width, f);
    PrefixLength(body, base, f.upper);
    NumberLength(digits, base, prec);
    var code, standard := WithPrefix(body, base, f.upper), mark + "" + Number(digits, base, prec);
    assert |body| == if f.left then n else Max(n, Min(prec, SCRATCH));
    assert |standard| == |mark| + |Number(digits, base, prec)|;
    if MeetsAlternative(n, base, prec, width, f) {
      PrecisionBodyMeets(digits, body, base, prec, width, f);
    }
  }

  // Without a precision, and without zeros to fill in.
  lemma PlainBody(digits: string, base: nat, width: u32, f: Flags)
    requires f.hash && base in {2, 8, 16} && !f.precision && (!f.zeropad || f.left || width < |digits|)
    requires 0 < |digits| <= SCRATCH && digits[0] != '0'
    ensures CodeBody(digits, base, 0, width, f) == AlternativeBody(digits, base, 0, width, Mark(base, f.upper), f)
            <==> MeetsAlternative(|digits|, base, 0, width, f)
  {
    hide Prefixed, WithPrefix, Number;
    var n, mark := |digits|, Mark(base, f.upper);
    NumberLength(digits, base, 0);
    assert ZeroExtended(digits, 0, width, f) == digits;
    var fill := if f.zeropad && !f.left then Repeat('0', width - |mark| - |Number(digits, base, 0)|) else "";
    assert fill == "" && mark + fill == mark;
    if n == width {
      var drop := if base == 16 && n > 1 then 2 else 1;
      CodeBodyDrop(digits, base, width, f, drop);
      PrefixLength(digits[drop..], base, f.upper);
    } else {
      CodeBodyNoDrop(digits, base, 0, width, f);
      PrefixLength(digits, base, f.upper);
    }
  }

  // With zeros up to the width, of which '#' drops one or two, one base at a time.
  lemma FilledOctal(digits: string, body: string, width: nat)
    requires 0 < |digits| <= width <= SCRATCH && body == Repeat('0', width - |digits|) + digits
    ensures "0" + body[1..] == "" + Repeat('0', width - (|digits| + 1)) + ("0" + digits) <==> |digits| < width
  {
    var n := |digits|;
    var standard := "" + Repeat('0', width - (n + 1)) + ("0" + digits);
    if n < width {
      assert body[1..] == Repeat('0', width - 1 - n) + digits;
    } else {
      assert |standard| == n + 1;
    }
  }

  lemma FilledHexadecimal(digits: string, body: string, width: nat, mark: string)
    requires 0 < |digits| <= width <= SCRATCH && body == Repeat('0', width - |digits|) + digits && |mark| == 2
    ensures mark + body[if width > 1 then 2 else 1..] == mark + Repeat('0', width - 2 - |digits|) + digits
            <==> |digits| + 2 <= width
  {
    var n := |digits|;
    var standard := mark + Repeat('0', width - 2 - n) + digits;
    if n + 2 <= width {
      assert body[2..] == Repeat('0', width - 2 - n) + digits;
      assert mark + body[2..] == standard;
    } else {
      assert |standard| == n + 2;
    }
  }

  lemma FilledBinary(digits: string, body: string, width: nat)
    requires 0 < |digits| <= width <= SCRATCH && body == Repeat('0', width - |digits|) + digits
    ensures WithPrefix(body[1..], 2, false) == "0b" + Repeat('0', width - 2 - |digits|) + digits
            <==> width == |digits| + 1 <= SCRATCH - 1
  {
    var n, code := |digits|, WithPrefix(body[1..], 2, false);
    var standard := "0b" + Repeat('0', width - 2 - n) + digits;
    PrefixLength(body[1..], 2, false);
    assert |standard| == Max(width, n + 2);
    if width == SCRATCH {
      assert code[0] == 'b' && standard[0] == '0';
    } else if width == n + 1 {
      assert body[1..] == digits;
      assert standard == "0b" + digits;
    }
  }

  lemma FilledCode(body: string, base: nat, width: u32, f: Flags)
    requires f.hash && base in {2, 8, 16} && !f.precision && 0 < |body| == width <= SCRATCH
    ensures base == 8 ==> Prefixed(body, base, 0, width, f) == "0" + body[1..]
    ensures base == 16 ==>
              Prefixed(body, base, 0, width, f) == Mark(base, f.upper) + body[if width > 1 then 2 else 1..]
    ensures base == 2 ==> Prefixed(body, base, 0, width, f) == WithPrefix(body[1..], 2, false)
  {
    hide Prefixed;
    var drop := if base == 16 && width > 1 then 2 else 1;
    CodeBodyDrop(body, base, width, f, drop);
    if base != 2 {
      hide WithPrefix;
      PrefixLength(body[drop..], base, f.upper);
    }
  }

  lemma FilledStandard(digits: string, base: nat, width: u32, f: Flags)
    requires base in {2, 8, 16} && f.zeropad && !f.left && digits != "" && digits[0] != '0'
    ensures var mark := Mark(base, f.upper);
      AlternativeBody(digits, base, 0, width, mark, f)
      == mark + Repeat('0', width - |mark| - |digits| - if base == 8 then 1 else 0)
         + (if base == 8 then "0" + digits else digits)
  {
    hide Number;
    NumberLength(digits, base, 0);
    assert Repeat('0', -|digits|) + digits == digits;
  }

  lemma FilledBody(digits: string, base: nat, width: u32, f: Flags)
    requires f.hash && base in {2, 8, 16} && !f.precision && f.zeropad && !f.left && |digits| <= width
    requires 0 < |digits| <= SCRATCH && digits[0] != '0'
    ensures CodeBody(digits, base, 0, width, f) == AlternativeBody(digits, base, 0, width, Mark(base, f.upper), f)
            <==> MeetsAlternative(|digits|, base, 0, width, f)
  {
    hide Prefixed, WithPrefix, AlternativeBody;
    var body := ZeroExtended(digits, 0, width, f);
    FilledStandard(digits, base, width, f);
    if width > SCRATCH {
      CodeBodyNoDrop(body, base, 0, width, f);
      PrefixLength(body, base, f.upper);
    } else {
      assert body == Repeat('0', width - |digits|) + digits;
      FilledCode(body, base, width, f);
      if base == 8 {
        FilledOctal(digits, body, width);
      } else if base == 16 {
        FilledHexadecimal(digits, body, width, Mark(base, f.upper));
      } else {
        FilledBinary(digits, body, width);
      }
    }
  }

  // ---------- The text of a conversion with '#' ----------

  lemma BodyExact(digits: string, base: nat, prec: u32, width: u32, f: Flags)
    requires f.hash && base in {2, 8, 16} && (f.precision ==> !f.zeropad) && (f.precision || prec == 0)
    requires 0 < |digits| <= SCRATCH && digits[0] != '0'
    ensures CodeBody(digits, base, prec, width, f)
            == AlternativeBody(digits, base, prec, width, Mark(base, f.upper), f)
            <==> MeetsAlternative(|digits|, base, prec, width, f)
  {
    hide CodeBody, AlternativeBody, MeetsAlternative;
    if f.precision {
      PrecisionBody(digits, base, prec, width, f);
    } else if !f.zeropad || f.left || width < |digits| {
      PlainBody(digits, base, width, f);
    } else {
      FilledBody(digits, base, width, f);
    }
  }

  lemma BodiesBlankFree(digits: string, base: nat, prec: u32, width: u32, mark: string, f: Flags)
    requires ' ' !in digits && ' ' !in mark
    ensures ' ' !in CodeBody(digits, base, prec, width, f)
    ensures ' ' !in AlternativeBody(digits, base, prec, width, mark, f)
  {
    var body := ZeroExtended(digits, prec, width, f);
    assert ' ' !in body;
    assert ' ' !in HashKept(body, base, prec, width, f);
    assert ' ' !in Number(digits, base, prec);
  }

  // The text of a nonzero value.
  lemma AlternativeText(conv: char, f: Flags, width: u32, prec: u32, v: nat)
    requires IntegerFlags(f, conv).hash && v > 0
    ensures var g, base := IntegerFlags(f, conv), BaseOf(conv);
      && base in {2, 8, 16} && !IsSigned(conv) && (g.precision ==> !g.zeropad)
      && IntegerText(conv, f, width, prec, v) == Justified(CodeBody(Kept(v, base, g), base, prec, width, g), width, g)
      && StandardAlternative(conv, f, width, prec, v)
         == Justified(AlternativeBody(Digits(v, base, g.upper), base, prec, width, Mark(base, g.upper), g), width, g)
  {
    hide Field, Kept, Digits, Justified, CodeBody, AlternativeBody, Mark;
    var g, base := IntegerFlags(f, conv), BaseOf(conv);
    UnsignedField(Kept(v, base, g), base, prec, width, g);
  }

  lemma AlternativeInk(digits: string, base: nat, prec: u32, width: u32, mark: string, f: Flags)
    requires ' ' !in digits && ' ' !in mark
    ensures |Ink(Justified(AlternativeBody(digits, base, prec, width, mark, f), width, f))|
            == |AlternativeBody(digits, base, prec, width, mark, f)| >= |digits| + |mark|
  {
    hide Justified, Ink;
    var body := AlternativeBody(digits, base, prec, width, mark, f);
    BodiesBlankFree(digits, base, prec, width, mark, f);
    InkJustified(body, width, f);
    InkAll(body);
  }

  lemma NonzeroAlternative(conv: char, f: Flags, width: u32, prec: u32, v: nat)
    requires IntegerFlags(f, conv).hash && (f.precision || prec == 0) && v > 0
    ensures var g, base := IntegerFlags(f, conv), BaseOf(conv);
      IntegerText(conv, f, width, prec, v) == StandardAlternative(conv, f, width, prec, v)
      <==> v < Power(base, SCRATCH) && MeetsAlternative(|Digits(v, base, g.upper)|, base, prec, width, g)
  {
    hide IntegerText, StandardAlternative, MeetsAlternative, Kept, Digits, Justified, CodeBody, AlternativeBody, Ink;
    var g, base := IntegerFlags(f, conv), BaseOf(conv);
    var digits, mark := Digits(v, base, g.upper), Mark(base, g.upper);
    AlternativeText(conv, f, width, prec, v);
    DigitsBlankFree(v, base, g.upper);
    BodiesBlankFree(digits, base, prec, width, mark, g);
    if v < Power(base, SCRATCH) {
      KeptDenotes(v, base, g);
      DigitCount(v, base, g.upper, SCRATCH);
      JustifiedInk(CodeBody(digits, base, prec, width, g), AlternativeBody(digits, base, prec, width, mark, g),
                   width, g);
      BodyExact(digits, base, prec, width, g);
    } else {
      TooManyDigits(conv, f, width, prec, v);
      AlternativeInk(digits, base, prec, width, mark, g);
    }
  }

  lemma SameJustified(body: string, width: u32, g: Flags, g0: Flags)
    requires g0.left == g.left && g0.zeropad == g.zeropad
    ensures Justified(body, width, g0) == Justified(body, width, g)
  {
  }

  // With an explicit precision of 0 the octal alternative form still has its 0, which the code leaves out.
  lemma OctalZero(width: u32, g: Flags, g0: Flags)
    requires g.precision && !g.zeropad && !g.plus && !g.space && g0 == g.(hash := false)
    ensures Field("", false, 8, 0, width, g0) != Justified(AlternativeBody("", 8, 0, width, "", g), width, g)
  {
    hide Justified, Field;
    UnsignedField("", 8, 0, width, g0);
    assert CodeBody("", 8, 0, width, g0) == "";
    assert AlternativeBody("", 8, 0, width, "", g) == "0";
    JustifiedInk("", "0", width, g);
    SameJustified("", width, g, g0);
  }

  lemma ZeroNumber(kept: string, digits: string, base: nat, prec: nat)
    requires kept == "0" || (kept == "" && (prec > 0 || base != 8)) || (kept == "" && digits == "" && base != 8)
    requires digits == if kept == "" && prec == 0 then "" else "0"
    ensures Number(digits, base, prec) == Repeat('0', prec - |kept|) + kept
  {
    assert prec > 0 ==> Repeat('0', prec - |digits|) + digits == Repeat('0', prec);
    assert prec > 0 ==> Repeat('0', prec - |kept|) + kept == Repeat('0', prec);
  }

  lemma ZeroJustified(kept: string, digits: string, base: nat, prec: nat, width: u32, g: Flags, g0: Flags)
    requires Number(digits, base, prec) == Repeat('0', prec - |kept|) + kept
    requires !g0.plus && !g0.space && g0.left == g.left && g0.zeropad == g.zeropad
    ensures Justified(AlternativeBody(digits, base, prec, width, "", g), width, g)
            == StandardField(kept, false, prec, width, g0)
  {
    hide Number;
    var number := Number(digits, base, prec);
    var fill := width - |number|;
    var body := AlternativeBody(digits, base, prec, width, "", g);
    if g.zeropad && !g.left {
      assert body == Repeat('0', fill) + number;
      assert Justified(body, width, g) == body;
    } else {
      assert body == number;
    }
  }

  lemma ZeroStandard(conv: char, f: Flags, width: u32, prec: u32, kept: string, g0: Flags)
    requires IntegerFlags(f, conv).hash && (f.precision || prec == 0) && g0 == IntegerFlags(f, conv).(hash := false)
    requires kept == (if f.precision then "" else "0") && !(BaseOf(conv) == 8 && f.precision && prec == 0)
    ensures StandardAlternative(conv, f, width, prec, 0) == StandardField(kept, false, prec, width, g0)
  {
    hide Number, Digits, Justified, AlternativeBody, StandardField;
    var g, base := IntegerFlags(f, conv), BaseOf(conv);
    var digits := if f.precision && prec == 0 then "" else "0";
    ZeroDigits(base, g);
    ZeroNumber(kept, digits, base, prec);
    ZeroJustified(kept, digits, base, prec, width, g, g0);
  }

  // The value 0 is printed without '#'.
  lemma ZeroAlternative(conv: char, f: Flags, width: u32, prec: u32)
    requires IntegerFlags(f, conv).hash && (f.precision || prec == 0)
    ensures var g, base := IntegerFlags(f, conv), BaseOf(conv);
      IntegerText(conv, f, width, prec, 0) == StandardAlternative(conv, f, width, prec, 0)
      <==> ZeroMeetsAlternative(base, prec, width, g)
  {
    hide Justified, Field, StandardField;
    var g, base := IntegerFlags(f, conv), BaseOf(conv);
    var g0 := g.(hash := false);
    var kept := Kept(0, base, g0);
    ZeroDigits(base, g0);
    assert IntegerText(conv, f, width, prec, 0) == Field(kept, false, base, prec, width, g0);
    LayoutExact(kept, false, base, prec, width, g0);
    if base == 8 && f.precision && prec == 0 {
      OctalZero(width, g, g0);
    } else {
      ZeroStandard(conv, f, width, prec, kept, g0);
    }
  }

  // For every conversion with '#', the code prints the alternative form exactly when the digits fit the
  // scratch buffer and this condition on their number holds.
  lemma AlternativeExact(conv: char, f: Flags, width: u32, prec: u32, v: nat)
    requires IntegerFlags(f, conv).hash && (f.precision || prec == 0)
    ensures var g, base := IntegerFlags(f, conv), BaseOf(conv);
      IntegerText(conv, f, width, prec, v) == StandardAlternative(conv, f, width, prec, v)
      <==> if v == 0 then ZeroMeetsAlternative(base, prec, width, g)
           else v < Power(base, SCRATCH) && MeetsAlternative(|Digits(v, base, g.upper)|, base, prec, width, g)
  {
    if v == 0 {
      ZeroAlternative(conv, f, width, prec);
    } else {
      NonzeroAlternative(conv, f, width, prec, v);
    }
  }

  lemma CodeKeepsDigits(v: nat, base: nat, prec: u32, width: u32, f: Flags)
    requires f.hash && base in {2, 8, 16} && 0 < v < Power(base, SCRATCH) && (f.precision || prec == 0)
    ensures EndsWith(CodeBody(Kept(v, base, f), base, prec, width, f), Kept(v, base, f))
            <==> !HashLosesDigits(|Kept(v, base, f)|, base, width, f)
  {
    hide Kept, Prefixed, ZeroExtended, HashLosesDigits, EndsWith;
    HashKeepsDigits(v, base, prec, width, f);
  }

  // Every digit is in the field exactly when they fit the scratch buffer and '#' drops none.
  lemma HashFieldKeepsDigits(conv: char, f: Flags, width: u32, prec: u32, v: nat)
    requires IntegerFlags(f, conv).hash && (f.precision || prec == 0) && v > 0
    ensures var g, base := IntegerFlags(f, conv), BaseOf(conv);
      var digits := Digits(v, base, g.upper);
      EndsWith(Ink(IntegerText(conv, f, width, prec, v)), digits)
      <==> v < Power(base, SCRATCH) && !HashLosesDigits(|digits|, base, width, g)
  {
    hide IntegerText, StandardAlternative, Kept, Digits, Justified, CodeBody, AlternativeBody, HashLosesDigits, Ink;
    var g, base := IntegerFlags(f, conv), BaseOf(conv);
    var digits := Digits(v, base, g.upper);
    if v < Power(base, SCRATCH) {
      AlternativeText(conv, f, width, prec, v);
      KeptDenotes(v, base, g);
      DigitsBlankFree(v, base, g.upper);
      BodiesBlankFree(digits, base, prec, width, "", g);
      var body := CodeBody(digits, base, prec, width, g);
      InkJustified(body, width, g);
      InkAll(body);
      CodeKeepsDigits(v, base, prec, width, g);
    } else {
      TooManyDigits(conv, f, width, prec, v);
    }
  }

  // An input that fails: "%#.3o" of 8 has a 0 too many, because the precision already supplies one.
  lemma OctalPrecisionFails()
    ensures var f := NO_FLAGS.(hash := true, precision := true);
      IntegerText('o', f, 0, 3, 8) == "0010" && StandardAlternative('o', f, 0, 3, 8) == "010"
  {
    var f := NO_FLAGS.(hash := true, precision := true);
    assert Digits(1, 8, false) == "1";
    assert Digits(8, 8, false) == "10";
    assert Repeat('0', 1) + "10" == "010";
    assert Repeat('0', 0) == "" && Repeat('0', -3) == "";
    assert IntegerFlags(f, 'o') == f;
    hide Digits;
    assert Kept(8, 8, f) == "10";
    assert ZeroExtended("10", 3, 0, f) == "010";
    assert Prefixed("010", 8, 3, 0, f) == "0010";
    assert Field("10", false, 8, 3, 0, f) == "0010";
    assert Number("10", 8, 3) == "010";
    assert AlternativeBody("10", 8, 3, 0, "", f) == "010";
    assert Justified("010", 0, f) == "010";
  }
}

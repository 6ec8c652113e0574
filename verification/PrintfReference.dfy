/** What printf promises for each directive, said of its characters, and when the engine keeps the promise. */
module PrintfReference {
  import opened Machine
  import opened Text
  import opened PrintfField
  import opened PrintfFormat
  import opened PrintfTheorems
  import opened PrintfAlternative
  import opened PrintfPrecision
  import opened PrintfWritten

  // ---------- Arguments ----------

  // The word w stands for v in two's complement, or unsigned, modulo a power of 2.
  predicate StandsFor(w: nat, modulus: nat, signed: bool, v: int)
    requires modulus > 0
  {
    && (if signed then 0 - modulus <= 2 * v < modulus else 0 <= v < modulus)
    && (w - v) % modulus == 0
  }

  // The argument passes v under a length: an int and a long have 32 bits, a long long and an intmax_t 64.
  predicate Passes(length: Length, signed: bool, arg: Arg, v: int) {
    match length
    case Char => arg.Word? && StandsFor(arg.w, 0x100, signed, v)
    case Short => arg.Word? && StandsFor(arg.w, 0x1_0000, signed, v)
    case Plain => arg.Word? && StandsFor(arg.w, 0x1_0000_0000, signed, v)
    case Long => arg.Word? && StandsFor(arg.w, 0x1_0000_0000, signed, v)
    case LongLong => arg.Quad? && StandsFor(arg.q, 0x1_0000_0000_0000_0000, signed, v)
    case IntMax => arg.Quad? && StandsFor(arg.q, 0x1_0000_0000_0000_0000, signed, v)
  }

  predicate NoLength(f: Flags) {
    !f.chr && !f.short && !f.long && !f.longLong
  }

  // A word below the modulus stands for itself or, signed, for itself less the modulus.
  lemma StandsForOnly(w: nat, modulus: nat, signed: bool, v: int)
    requires 0 < modulus && modulus % 2 == 0 && w < modulus
    ensures StandsFor(w, modulus, signed, v) <==> v == if signed && 2 * w >= modulus then w - modulus else w
  {
    if StandsFor(w, modulus, signed, v) {
      var k := (w - v) / modulus;
      DivModMeaning(w - v, modulus);
      if k >= 2 {
        MulLe(2, k, modulus);
      } else if k <= -1 {
        MulLe(k, -1, modulus);
      }
    } else if v == if signed && 2 * w >= modulus then w - modulus else w {
      DivModUnique(w - v, modulus, if v == w then 0 else 1, 0);
    }
  }

  // Only the low bits of a word count.
  lemma StandsForLow(w: nat, modulus: nat, signed: bool, v: int)
    requires 0 < modulus
    ensures w % modulus >= 0
    ensures StandsFor(w, modulus, signed, v) <==> StandsFor(w % modulus, modulus, signed, v)
  {
    DivModMeaning(w, modulus);
    var q, r, x := w / modulus, w % modulus, w % modulus - v;
    DivModMeaning(x, modulus);
    assert w - v == (q + x / modulus) * modulus + x % modulus;
    DivModUnique(w - v, modulus, q + x / modulus, x % modulus);
  }

  // The engine reads exactly the value that is passed.
  lemma ArgumentRead(conv: char, f: Flags, length: Length, arg: Arg, v: int)
    requires NoLength(f)
    ensures IntegerOf(conv, WithLength(f, length), arg) == Some(v)
            <==> Passes(length, conv == 'd' || conv == 'i', arg, v)
  {
    hide StandsFor;
    var signed := conv == 'd' || conv == 'i';
    match length
    case Char =>
      if arg.Word? {
        StandsForLow(arg.w, 0x100, signed, v);
        StandsForOnly(arg.w % 0x100, 0x100, signed, v);
      }
    case Short =>
      if arg.Word? {
        StandsForLow(arg.w, 0x1_0000, signed, v);
        StandsForOnly(arg.w % 0x1_0000, 0x1_0000, signed, v);
      }
    case LongLong =>
      if arg.Quad? {
        StandsForOnly(arg.q, 0x1_0000_0000_0000_0000, signed, v);
      }
    case IntMax =>
      if arg.Quad? {
        StandsForOnly(arg.q, 0x1_0000_0000_0000_0000, signed, v);
      }
    case _ =>
      if arg.Word? {
        StandsForOnly(arg.w, 0x1_0000_0000, signed, v);
      }
  }

  // ---------- The text promised for an integer ----------

  // Sign and mark, then the number, in a field of at least the width: filled with blanks behind, with zeros
  // before the number, or with blanks in front.
  function LaidOut(left: bool, zeros: bool, front: string, number: string, width: nat): string {
    var fill := width - |front| - |number|;
    if left then front + number + Repeat(' ', fill)
    else if zeros then front + Repeat('0', fill) + number
    else Repeat(' ', fill) + front + number
  }

  function PromisedSign(flags: string, conv: char, v: int): string {
    if v < 0 then "-" else if conv != 'd' && conv != 'i' then ""
    else if '+' in flags then "+" else if ' ' in flags then " " else ""
  }

  function PromisedMark(flags: string, conv: char, v: int): string {
    if v == 0 || '#' !in flags then "" else if conv == 'x' then "0x" else if conv == 'X' then "0X"
    else if conv == 'b' then "0b" else ""
  }

  function PromisedDigits(prec: Option<u32>, conv: char, v: int): string {
    var base := if conv == 'x' || conv == 'X' then 16 else if conv == 'o' then 8 else if conv == 'b' then 2 else 10;
    if v == 0 && prec == Some(0) then "" else Digits(if v < 0 then -v else v, base, conv == 'X')
  }

  function PromisedNumber(flags: string, prec: Option<u32>, conv: char, v: int): string {
    var digits := PromisedDigits(prec, conv, v);
    var padded := Repeat('0', (if prec.Some? then prec.value else 0) - |digits|) + digits;
    if '#' in flags && conv == 'o' && (padded == "" || padded[0] != '0') then "0" + padded else padded
  }

  // Section 7.21.6.1 of C11, in the characters of the directive; b is treated like x.
  function Promised(flags: string, width: nat, prec: Option<u32>, conv: char, v: int): string {
    LaidOut('-' in flags, '0' in flags && prec == None, PromisedSign(flags, conv, v) + PromisedMark(flags, conv, v),
            PromisedNumber(flags, prec, conv, v), width)
  }

  predicate IsInteger(conv: char) {
    conv == 'd' || conv == 'i' || conv == 'u' || conv == 'x' || conv == 'X' || conv == 'o' || conv == 'b'
  }

  // The flags of a directive as the engine sets them.
  function SetFlags(flags: string, prec: Option<u32>, length: Length): Flags {
    WithLength(FlagsOf(flags).(precision := prec.Some?), length)
  }

  function Or0(n: Option<u32>): u32 {
    if n.Some? then n.value else 0
  }

  lemma LengthKeeps(f: Flags, length: Length)
    ensures var g := WithLength(f, length);
      && g.left == f.left && g.zeropad == f.zeropad && g.plus == f.plus && g.space == f.space && g.hash == f.hash
      && g.precision == f.precision && g.upper == f.upper
  {
    match length
    case Plain =>
    case Char =>
    case Short =>
    case Long =>
    case LongLong =>
    case IntMax =>
  }

  lemma FlagsSet(flags: string, prec: Option<u32>, length: Length)
    ensures var f := SetFlags(flags, prec, length);
      && f.left == ('-' in flags) && f.zeropad == ('0' in flags) && f.plus == ('+' in flags)
      && f.space == (' ' in flags) && f.hash == ('#' in flags) && f.precision == prec.Some? && !f.upper
  {
    hide WithLength;
    LengthKeeps(FlagsOf(flags).(precision := prec.Some?), length);
  }

  lemma FlagsObeyed(f: Flags, conv: char)
    requires IsInteger(conv)
    ensures var g, signed := IntegerFlags(f, conv), conv == 'd' || conv == 'i';
      && g.left == f.left && g.zeropad == (f.zeropad && !f.precision) && g.precision == f.precision
      && g.plus == (signed && f.plus) && g.space == (signed && f.space) && g.upper == (conv == 'X')
      && g.hash == (f.hash && !signed && conv != 'u')
  {
  }

  // The flags an integer conversion obeys, one by one.
  lemma FlagsRespected(flags: string, prec: Option<u32>, length: Length, conv: char)
    requires IsInteger(conv)
    ensures var g := IntegerFlags(SetFlags(flags, prec, length), conv);
      var signed := conv == 'd' || conv == 'i';
      && g.left == ('-' in flags) && g.zeropad == ('0' in flags && prec == None) && g.precision == prec.Some?
      && g.plus == (signed && '+' in flags) && g.space == (signed && ' ' in flags) && g.upper == (conv == 'X')
      && g.hash == ('#' in flags && !signed && conv != 'u')
      && SetFlags(flags, prec, length).precision == prec.Some?
  {
    hide SetFlags, IntegerFlags;
    FlagsSet(flags, prec, length);
    FlagsObeyed(SetFlags(flags, prec, length), conv);
  }

  lemma StandardLaidOut(digits: string, negative: bool, prec: nat, width: nat, f: Flags)
    ensures StandardField(digits, negative, prec, width, f)
            == LaidOut(f.left, f.zeropad, Sign(negative, f), Repeat('0', prec - |digits|) + digits, width)
  {
    hide Sign, Repeat;
  }

  lemma StandardIsPromised(flags: string, width: u32, prec: Option<u32>, length: Length, conv: char, v: int)
    requires IsInteger(conv) && !IntegerFlags(SetFlags(flags, prec, length), conv).hash
    ensures StandardText(conv, SetFlags(flags, prec, length), width, Or0(prec), v)
            == Promised(flags, width, prec, conv, v)
  {
    hide Digits, SetFlags, IntegerFlags, Repeat, StandardField, LaidOut;
    FlagsRespected(flags, prec, length, conv);
    var g := IntegerFlags(SetFlags(flags, prec, length), conv);
    var digits := PromisedDigits(prec, conv, v);
    StandardLaidOut(digits, v < 0, Or0(prec), width, g);
    assert PromisedMark(flags, conv, v) == "" || v < 0;
    assert Sign(v < 0, g) + PromisedMark(flags, conv, v) == Sign(v < 0, g);
  }

  lemma AlternativeLaidOut(digits: string, base: nat, prec: nat, width: u32, mark: string, f: Flags)
    ensures Justified(AlternativeBody(digits, base, prec, width, mark, f), width, f)
            == LaidOut(f.left, f.zeropad, mark, Number(digits, base, prec), width)
  {
    hide Number;
    var number := Number(digits, base, prec);
    var fill := width - |mark| - |number|;
    var body := AlternativeBody(digits, base, prec, width, mark, f);
    if f.left || !f.zeropad {
      assert body == mark + number;
      assert Repeat(' ', fill) + (mark + number) == Repeat(' ', fill) + mark + number;
    } else {
      assert "" + body + "" == body;
    }
  }

  lemma AlternativeIsPromised(flags: string, width: u32, prec: Option<u32>, length: Length, conv: char, v: nat)
    requires IsInteger(conv) && IntegerFlags(SetFlags(flags, prec, length), conv).hash
    ensures StandardAlternative(conv, SetFlags(flags, prec, length), width, Or0(prec), v)
            == Promised(flags, width, prec, conv, v)
  {
    hide Digits, SetFlags, IntegerFlags, Repeat, LaidOut, AlternativeBody, Justified;
    FlagsRespected(flags, prec, length, conv);
    var g, base := IntegerFlags(SetFlags(flags, prec, length), conv), BaseOf(conv);
    var digits, mark := PromisedDigits(prec, conv, v), PromisedMark(flags, conv, v);
    AlternativeLaidOut(digits, base, Or0(prec), width, mark, g);
    assert "" + mark == mark;
  }

  // ---------- Directives ----------

  function AmountOf(n: Option<u32>): Amount {
    match n
    case None => Absent
    case Some(k) => Given(k)
  }

  lemma NoPrecisionYet(flags: string)
    ensures !FlagsOf(flags).precision && NoLength(FlagsOf(flags))
    ensures FlagsOf(flags).(precision := false) == FlagsOf(flags)
  {
  }

  lemma DirectiveSetup(flags: string, width: Option<u32>, prec: Option<u32>, length: Length, conv: char,
                       args: seq<Arg>)
    ensures SetupOf(Directive(flags, AmountOf(width), AmountOf(prec), length, conv), args)
            == Some(Setup(SetFlags(flags, prec, length), Or0(width), Or0(prec), args))
  {
    hide FlagsOf, WithLength;
    assert prec == None ==> FlagsOf(flags).(precision := false) == FlagsOf(flags) by {
      NoPrecisionYet(flags);
    }
  }

  // When the engine keeps the promise for an integer.
  predicate KeepsPromise(flags: string, width: u32, prec: Option<u32>, length: Length, conv: char, v: int) {
    var f := SetFlags(flags, prec, length);
    var g, base := IntegerFlags(f, conv), BaseOf(conv);
    && Magnitude(v) < Power(base, SCRATCH)
    && if !g.hash then MeetsStandard(Kept(Magnitude(v), base, g), v < 0, Or0(prec), width, g)
       else if v == 0 then ZeroMeetsAlternative(base, Or0(prec), width, g)
       else MeetsAlternative(|Digits(Magnitude(v), base, g.upper)|, base, Or0(prec), width, g)
  }

  lemma PowerPositive(base: nat)
    requires base > 0
    ensures 0 < Power(base, SCRATCH)
  {
  }

  lemma TextIsPromised(flags: string, width: u32, prec: Option<u32>, length: Length, conv: char, v: int)
    requires IsInteger(conv) && (v >= 0 || conv == 'd' || conv == 'i')
    ensures IntegerText(conv, SetFlags(flags, prec, length), width, Or0(prec), v)
            == Promised(flags, width, prec, conv, v)
            <==> KeepsPromise(flags, width, prec, length, conv, v)
  {
    hide Digits, SetFlags, IntegerFlags, IntegerText, Promised, StandardText, StandardAlternative, MeetsStandard, Power;
    hide MeetsAlternative, ZeroMeetsAlternative, Kept;
    var f := SetFlags(flags, prec, length);
    FlagsRespected(flags, prec, length, conv);
    if IntegerFlags(f, conv).hash {
      AlternativeExact(conv, f, width, Or0(prec), v);
      AlternativeIsPromised(flags, width, prec, length, conv, v);
      PowerPositive(BaseOf(conv));
    } else {
      ConversionExact(conv, f, width, Or0(prec), v);
      StandardIsPromised(flags, width, prec, length, conv, v);
    }
  }

  lemma IntegerListed(conv: char)
    requires IsInteger(conv)
    ensures conv in "diuxXob"
  {
    var s := "diuxXob";
    assert s[0] == 'd' && s[1] == 'i' && s[2] == 'u' && s[3] == 'x' && s[4] == 'X' && s[5] == 'o' && s[6] == 'b';
  }

  lemma IntegerRead(flags: string, prec: Option<u32>, length: Length, conv: char, arg: Arg, v: int)
    requires Passes(length, conv == 'd' || conv == 'i', arg, v)
    ensures IntegerOf(conv, SetFlags(flags, prec, length), arg) == Some(v)
    ensures v >= 0 || conv == 'd' || conv == 'i'
  {
    NoPrecisionYet(flags);
    hide FlagsOf, IntegerOf;
    ArgumentRead(conv, FlagsOf(flags).(precision := prec.Some?), length, arg, v);
  }

  // An integer directive takes one argument; for whatever value that passes, it prints the text promised if
  // and only if KeepsPromise.
  lemma IntegerDirective(flags: string, width: Option<u32>, prec: Option<u32>, length: Length, conv: char, arg: Arg,
                         v: int, rest: seq<Arg>)
    requires IsInteger(conv) && Passes(length, conv == 'd' || conv == 'i', arg, v)
    ensures var r := RenderItem(Directive(flags, AmountOf(width), AmountOf(prec), length, conv), [arg] + rest);
      && r.Some? && r.value.1 == rest
      && (r.value.0 == Promised(flags, Or0(width), prec, conv, v)
          <==> KeepsPromise(flags, Or0(width), prec, length, conv, v))
  {
    hide SetFlags, IntegerText, Promised, KeepsPromise, IntegerOf, SetupOf;
    var f := SetFlags(flags, prec, length);
    DirectiveSetup(flags, width, prec, length, conv, [arg] + rest);
    IntegerRead(flags, prec, length, conv, arg, v);
    IntegerListed(conv);
    assert ([arg] + rest)[0] == arg && ([arg] + rest)[1..] == rest;
    assert RenderDirective(conv, f, Or0(width), Or0(prec), [arg] + rest)
        == Some((IntegerText(conv, f, Or0(width), Or0(prec), v), rest));
    TextIsPromised(flags, Or0(width), prec, length, conv, v);
  }

  // A format that is one written directive.
  lemma RenderWritten(flags: string, width: Option<u32>, prec: Option<u32>, length: Length, conv: char,
                      args: seq<Arg>, text: string)
    requires Writable(flags, AmountOf(width), conv)
    requires RenderItem(Directive(flags, AmountOf(width), AmountOf(prec), length, conv), args) == Some((text, []))
    ensures var fmt := Written(flags, AmountOf(width), AmountOf(prec), length, conv);
      '\0' !in fmt && Render(fmt, 0, args) == Some(text)
  {
    hide Parse, RenderItem, Written, Writable;
    var item := Directive(flags, AmountOf(width), AmountOf(prec), length, conv);
    WriteThenParse(flags, AmountOf(width), AmountOf(prec), length, conv);
    assert RenderItems([item][1..], []) == Some("") && text + "" == text;
  }

  lemma PlainWritable(conv: char)
    requires IsInteger(conv)
    ensures Writable("", Absent, conv)
  {
  }

  lemma PlainPromised(conv: char, v: int)
    requires IsInteger(conv) && (v >= 0 || conv == 'd' || conv == 'i')
    ensures var base :=
      if conv == 'x' || conv == 'X' then 16 else if conv == 'o' then 8 else if conv == 'b' then 2 else 10;
      Promised("", 0, None, conv, v)
      == (if v < 0 then "-" else "") + Digits(if v < 0 then -v else v, base, conv == 'X')
  {
    hide Digits;
    var digits := PromisedDigits(None, conv, v);
    var sign := PromisedSign("", conv, v);
    assert Repeat('0', -|digits|) + digits == digits;
    assert sign + "" == sign && Repeat(' ', 0 - |sign| - |digits|) + sign + digits == sign + digits;
  }

  lemma SignIsShort(negative: bool, g: Flags)
    ensures !negative && !g.plus && !g.space ==> Sign(negative, g) == ""
  {
  }

  lemma PassedFits(length: Length, signed: bool, arg: Arg, v: int)
    requires Passes(length, signed, arg, v)
    ensures Magnitude(v) < U64 && (length != LongLong && length != IntMax ==> Magnitude(v) < U32)
  {
  }

  lemma PlainKept(length: Length, conv: char, arg: Arg, v: int)
    requires IsInteger(conv) && Passes(length, conv == 'd' || conv == 'i', arg, v)
    requires conv == 'b' ==> length != LongLong && length != IntMax
    ensures KeepsPromise("", 0, None, length, conv, v) && (v >= 0 || conv == 'd' || conv == 'i')
  {
    hide Digits, Power, SetFlags, IntegerFlags, IntegerOf;
    var f := SetFlags("", None, length);
    var g := IntegerFlags(f, conv);
    FlagsRespected("", None, length, conv);
    IntegerRead("", None, length, conv, arg, v);
    PowerScratch(BaseOf(conv));
    PassedFits(length, conv == 'd' || conv == 'i', arg, v);
    if conv == 'd' || conv == 'i' {
      SignedDigitsFit(conv, v, g);
      KeptDenotes(Magnitude(v), BaseOf(conv), g);
    }
    SignIsShort(v < 0, g);
  }

  // Without flags, width and precision: the sign and the digits.
  lemma PlainInteger(length: Length, conv: char, arg: Arg, v: int)
    requires IsInteger(conv) && Passes(length, conv == 'd' || conv == 'i', arg, v)
    requires conv == 'b' ==> length != LongLong && length != IntMax
    ensures var base :=
      if conv == 'x' || conv == 'X' then 16 else if conv == 'o' then 8 else if conv == 'b' then 2 else 10;
      var fmt := Written("", Absent, Absent, length, conv);
      && '\0' !in fmt
      && Render(fmt, 0, [arg])
         == Some((if v < 0 then "-" else "") + Digits(if v < 0 then -v else v, base, conv == 'X'))
  {
    hide RenderItem, Written, Writable, KeepsPromise, Promised, Render, Digits;
    IntegerDirective("", None, None, length, conv, arg, v, []);
    assert [arg] + [] == [arg];
    PlainKept(length, conv, arg, v);
    PlainPromised(conv, v);
    assert Writable("", Absent, conv) by {
      PlainWritable(conv);
    }
    RenderWritten("", None, None, length, conv, [arg], Promised("", 0, None, conv, v));
  }

  // ---------- Formats spelled out ----------

  // What a signed number looks like: a minus sign if it is negative, and the digits of its magnitude.
  function Decimal(v: int): string {
    (if v < 0 then "-" else "") + Digits(if v < 0 then -v else v, 10, false)
  }

  lemma SpelledFormats(conv: char)
    ensures Written("", Absent, Absent, Plain, conv) == ['%', conv]
    ensures Written("", Absent, Absent, Long, conv) == ['%', 'l', conv]
    ensures Written("", Absent, Absent, LongLong, conv) == ['%', 'l', 'l', conv]
    ensures Written("", Absent, Absent, IntMax, conv) == ['%', 'j', conv]
    ensures Written("", Absent, Absent, Short, conv) == ['%', 'h', conv]
    ensures Written("", Absent, Absent, Char, conv) == ['%', 'h', 'h', conv]
  {
  }

  lemma LowBits(v: int, modulus: nat)
    requires modulus > 0 && 0 - modulus <= 2 * v < modulus
    ensures 0 <= v % modulus < modulus && StandsFor(v % modulus, modulus, true, v)
  {
    DivModMeaning(v, modulus);
    assert v % modulus - v == (-(v / modulus)) * modulus;
    DivModUnique(v % modulus - v, modulus, -(v / modulus), 0);
  }

  // 32 bits: int and long.
  lemma SignedWords(v: int)
    requires -0x8000_0000 <= v < 0x8000_0000
    ensures Render("%d", 0, [Word(v % 0x1_0000_0000)]) == Some(Decimal(v))
    ensures Render("%i", 0, [Word(v % 0x1_0000_0000)]) == Some(Decimal(v))
    ensures Render("%ld", 0, [Word(v % 0x1_0000_0000)]) == Some(Decimal(v))
  {
    hide Render, Written, Digits;
    SpelledFormats('d');
    SpelledFormats('i');
    LowBits(v, 0x1_0000_0000);
    PlainInteger(Plain, 'd', Word(v % 0x1_0000_0000), v);
    PlainInteger(Plain, 'i', Word(v % 0x1_0000_0000), v);
    PlainInteger(Long, 'd', Word(v % 0x1_0000_0000), v);
  }

  // 64 bits: long long and intmax_t.
  lemma SignedQuads(v: int)
    requires -0x8000_0000_0000_0000 <= v < 0x8000_0000_0000_0000
    ensures Render("%lld", 0, [Quad(v % 0x1_0000_0000_0000_0000)]) == Some(Decimal(v))
    ensures Render("%jd", 0, [Quad(v % 0x1_0000_0000_0000_0000)]) == Some(Decimal(v))
  {
    hide Render, Written, Digits;
    SpelledFormats('d');
    LowBits(v, 0x1_0000_0000_0000_0000);
    PlainInteger(LongLong, 'd', Quad(v % 0x1_0000_0000_0000_0000), v);
    PlainInteger(IntMax, 'd', Quad(v % 0x1_0000_0000_0000_0000), v);
  }

  // 16 and 8 bits: of the word passed, only so many count.
  lemma SignedShorts(v: int, w: u32)
    ensures -0x8000 <= v < 0x8000 && (w - v) % 0x1_0000 == 0 ==> Render("%hd", 0, [Word(w)]) == Some(Decimal(v))
    ensures -0x80 <= v < 0x80 && (w - v) % 0x100 == 0 ==> Render("%hhd", 0, [Word(w)]) == Some(Decimal(v))
  {
    hide Render, Written, Digits;
    SpelledFormats('d');
    if -0x8000 <= v < 0x8000 && (w - v) % 0x1_0000 == 0 {
      PlainInteger(Short, 'd', Word(w), v);
    }
    if -0x80 <= v < 0x80 && (w - v) % 0x100 == 0 {
      PlainInteger(Char, 'd', Word(w), v);
    }
  }

  lemma Itself(v: nat, modulus: nat)
    requires v < modulus
    ensures StandsFor(v, modulus, false, v)
  {
    DivModUnique(0, modulus, 0, 0);
  }

  lemma UnsignedInteger(length: Length, conv: char, arg: Arg, v: nat)
    requires IsInteger(conv) && conv != 'd' && conv != 'i' && Passes(length, false, arg, v)
    requires conv == 'b' ==> length != LongLong && length != IntMax
    ensures var base :=
      if conv == 'x' || conv == 'X' then 16 else if conv == 'o' then 8 else if conv == 'b' then 2 else 10;
      var fmt := Written("", Absent, Absent, length, conv);
      '\0' !in fmt && Render(fmt, 0, [arg]) == Some(Digits(v, base, conv == 'X'))
  {
    hide Render, Written, Digits;
    PlainInteger(length, conv, arg, v);
    var base := if conv == 'x' || conv == 'X' then 16 else if conv == 'o' then 8 else if conv == 'b' then 2 else 10;
    var digits := Digits(v, base, conv == 'X');
    assert "" + digits == digits;
  }

  lemma UnsignedWords(v: u32)
    ensures Render("%u", 0, [Word(v)]) == Some(Digits(v, 10, false))
    ensures Render("%x", 0, [Word(v)]) == Some(Digits(v, 16, false))
    ensures Render("%X", 0, [Word(v)]) == Some(Digits(v, 16, true))
    ensures Render("%o", 0, [Word(v)]) == Some(Digits(v, 8, false))
    ensures Render("%b", 0, [Word(v)]) == Some(Digits(v, 2, false))
  {
    hide Render, Written, Digits, StandsFor;
    SpelledFormats('u');
    SpelledFormats('x');
    SpelledFormats('X');
    SpelledFormats('o');
    SpelledFormats('b');
    Itself(v, 0x1_0000_0000);
    UnsignedInteger(Plain, 'u', Word(v), v);
    UnsignedInteger(Plain, 'x', Word(v), v);
    UnsignedInteger(Plain, 'X', Word(v), v);
    UnsignedInteger(Plain, 'o', Word(v), v);
    UnsignedInteger(Plain, 'b', Word(v), v);
  }

  lemma LowUnsigned(w: nat, modulus: nat)
    requires modulus > 0
    ensures 0 <= w % modulus && StandsFor(w, modulus, false, w % modulus)
  {
    DivModMeaning(w, modulus);
    DivModUnique(w - w % modulus, modulus, w / modulus, 0);
  }

  lemma UnsignedShorts(w: u32)
    ensures Render("%hu", 0, [Word(w)]) == Some(Digits(w % 0x1_0000, 10, false))
    ensures Render("%hhu", 0, [Word(w)]) == Some(Digits(w % 0x100, 10, false))
  {
    hide Render, Written, Digits, StandsFor;
    SpelledFormats('u');
    LowUnsigned(w, 0x1_0000);
    LowUnsigned(w, 0x100);
    UnsignedInteger(Short, 'u', Word(w), w % 0x1_0000);
    UnsignedInteger(Char, 'u', Word(w), w % 0x100);
  }

  lemma UnsignedQuads(v: u64)
    ensures Render("%llu", 0, [Quad(v)]) == Some(Digits(v, 10, false))
    ensures Render("%llx", 0, [Quad(v)]) == Some(Digits(v, 16, false))
  {
    hide Render, Written, Digits, StandsFor;
    SpelledFormats('u');
    SpelledFormats('x');
    Itself(v, 0x1_0000_0000_0000_0000);
    UnsignedInteger(LongLong, 'u', Quad(v), v);
    UnsignedInteger(LongLong, 'x', Quad(v), v);
  }

  // ---------- Characters, strings, pointers and literals ----------

  // Characters and strings are filled with blanks on one side.
  function PromisedString(flags: string, width: nat, s: string): string {
    if '-' in flags then s + Repeat(' ', width - |s|) else Repeat(' ', width - |s|) + s
  }

  lemma AlignedIsPromised(flags: string, prec: Option<u32>, length: Length, width: u32, s: string)
    ensures Aligned(s, width, SetFlags(flags, prec, length)) == PromisedString(flags, width, s)
  {
    var f := SetFlags(flags, prec, length);
    assert f.left == ('-' in flags);
    hide FlagsOf, WithLength;
    assert "" + s == s && Repeat(' ', width - |s|) + s + "" == Repeat(' ', width - |s|) + s;
  }

  lemma CharacterDirective(flags: string, width: Option<u32>, prec: Option<u32>, length: Length, w: u32,
                           rest: seq<Arg>)
    ensures RenderItem(Directive(flags, AmountOf(width), AmountOf(prec), length, 'c'), [Word(w)] + rest)
            == Some((PromisedString(flags, Or0(width), [(w % 256) as char]), rest))
  {
    hide SetFlags, SetupOf, Aligned;
    DirectiveSetup(flags, width, prec, length, 'c', [Word(w)] + rest);
    AlignedIsPromised(flags, prec, length, Or0(width), [(w % 256) as char]);
    assert ([Word(w)] + rest)[0] == Word(w) && ([Word(w)] + rest)[1..] == rest;
    assert 'c' !in "diuxXob" && 'c' !in "fFeEgG";
  }

  lemma StringDirective(flags: string, width: Option<u32>, prec: Option<u32>, length: Length, s: CString,
                        rest: seq<Arg>)
    ensures var shown := if prec.Some? && prec.value < |s| then s[..prec.value] else s;
      RenderItem(Directive(flags, AmountOf(width), AmountOf(prec), length, 's'), [Str(s)] + rest)
      == Some((PromisedString(flags, Or0(width), shown), rest))
  {
    var shown := if prec.Some? && prec.value < |s| then s[..prec.value] else s;
    var f := SetFlags(flags, prec, length);
    assert f.precision == prec.Some?;
    hide SetFlags, SetupOf, Aligned;
    assert Cut(s, Or0(prec), f) == shown;
    DirectiveSetup(flags, width, prec, length, 's', [Str(s)] + rest);
    AlignedIsPromised(flags, prec, length, Or0(width), shown);
    assert ([Str(s)] + rest)[0] == Str(s) && ([Str(s)] + rest)[1..] == rest;
    assert 's' !in "diuxXob" && 's' !in "fFeEgG";
  }

  // A percent sign, and every character that is no conversion, prints itself.
  lemma OtherDirective(flags: string, width: Option<u32>, prec: Option<u32>, length: Length, conv: char,
                       args: seq<Arg>)
    requires !IsInteger(conv) && conv != 'c' && conv != 's' && conv != 'p'
    requires conv != 'f' && conv != 'F' && conv != 'e' && conv != 'E' && conv != 'g' && conv != 'G'
    ensures RenderItem(Directive(flags, AmountOf(width), AmountOf(prec), length, conv), args) == Some(([conv], args))
  {
    hide SetFlags, SetupOf;
    DirectiveSetup(flags, width, prec, length, conv, args);
  }

  lemma PointerFits(w: u32)
    ensures |Digits(w, 16, true)| <= 8 && w < Power(16, SCRATCH)
  {
    assert Power(16, 4) == 65536;
    PowerAdd(16, 4, 4);
    DigitCount(w, 16, true, 8);
    PowerScratch(16);
  }

  lemma PointerField(w: u32)
    ensures var f := SetFlags("", None, Plain).(zeropad := true, upper := true);
      NumberText(w, false, 16, 0, 8, f) == Repeat('0', 8 - |Digits(w, 16, true)|) + Digits(w, 16, true)
  {
    hide Digits, Power;
    var digits := Digits(w, 16, true);
    PointerFits(w);
    var f := NO_FLAGS.(zeropad := true, upper := true);
    assert SetFlags("", None, Plain).(zeropad := true, upper := true) == f;
    DigitCount(w, 16, true, SCRATCH);
    assert Kept(w, 16, f) == digits;
    NumberTextField(w, false, 16, 0, 8, f);
    ZeroFilledShape(digits, false, 16, 0, 8, f);
    assert "" + (Repeat('0', 8 - |digits|) + digits) == Repeat('0', 8 - |digits|) + digits;
  }

  lemma PointerDirective(w: u32, f: Flags)
    ensures RenderDirective('p', f, 0, 0, [Word(w)])
            == Some((NumberText(w, false, 16, 0, 8, f.(zeropad := true, upper := true)), []))
  {
    hide NumberText;
    assert [Word(w)][1..] == [] && 'p' !in "diuxXob" && 'p' !in "fFeEgG";
  }

  // A pointer is eight hexadecimal digits in upper case.
  lemma PointerText(w: u32)
    ensures RenderItem(Directive("", Absent, Absent, Plain, 'p'), [Word(w)])
            == Some((Repeat('0', 8 - |Digits(w, 16, true)|) + Digits(w, 16, true), []))
    ensures |Digits(w, 16, true)| <= 8
  {
    hide Digits, SetupOf, NumberText, RenderDirective, SetFlags;
    DirectiveSetup("", None, None, Plain, 'p', [Word(w)]);
    PointerDirective(w, SetFlags("", None, Plain));
    PointerFits(w);
    PointerField(w);
  }

  // Text without a percent sign prints itself.
  lemma {:induction false} LiteralText(fmt: CString, i: nat, args: seq<Arg>)
    requires i <= |fmt| && '%' !in fmt
    ensures Render(fmt, i, args) == Some(fmt[i..])
    decreases |fmt| - i
  {
    if i < |fmt| {
      LiteralText(fmt, i + 1, args);
      var items := Parse(fmt, i + 1).value;
      assert fmt[i] in fmt;
      assert ItemAt(fmt, i) == Some((Literal(fmt[i]), i + 1));
      assert ([Literal(fmt[i])] + items)[1..] == items;
      assert RenderItem(Literal(fmt[i]), args) == Some(([fmt[i]], args));
      assert RenderItems([Literal(fmt[i])] + items, args) == Some([fmt[i]] + fmt[i + 1..]);
      assert fmt[i..] == [fmt[i]] + fmt[i + 1..];
    } else {
      assert fmt[i..] == "" && Parse(fmt, i) == Some([]);
    }
  }

  // ---------- Widths and precisions from arguments ----------

  lemma MinusAdded(flags: string)
    ensures FlagsOf(flags + "-") == FlagsOf(flags).(left := true)
  {
  }

  // A width passed as an argument counts as if it stood in the format; a negative one as its magnitude, with '-'.
  lemma StarWidth(flags: string, prec: Amount, length: Length, conv: char, v: int, args: seq<Arg>)
    requires -0x8000_0000 <= v < 0x8000_0000
    ensures RenderItem(Directive(flags, FromArg, prec, length, conv), [Word(v % 0x1_0000_0000)] + args)
            == RenderItem(Directive(if v < 0 then flags + "-" else flags, Given(if v < 0 then -v else v), prec, length,
                                    conv), args)
  {
    hide RenderDirective, WithPrecision, WithLength;
    var all := [Word(v % 0x1_0000_0000)] + args;
    assert all[0] == Word(v % 0x1_0000_0000) && all[1..] == args;
    MinusAdded(flags);
  }

  lemma StarPrecision(flags: string, width: Option<u32>, length: Length, conv: char, v: nat, args: seq<Arg>)
    requires v < 0x8000_0000
    ensures RenderItem(Directive(flags, AmountOf(width), FromArg, length, conv), [Word(v)] + args)
            == RenderItem(Directive(flags, AmountOf(width), Given(v), length, conv), args)
  {
    hide RenderDirective, FlagsOf, WithLength;
    assert ([Word(v)] + args)[0] == Word(v) && ([Word(v)] + args)[1..] == args;
  }
}

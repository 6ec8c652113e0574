/** What one integer conversion prints, and how that compares with section 7.21.6.1 of C11. */
module PrintfField {
  import opened Machine
  import opened Text

  const SCRATCH: nat := 32  // PRINTF_NTOA_BUFFER_SIZE

  datatype Flags = Flags(zeropad: bool, left: bool, plus: bool, space: bool, hash: bool, upper: bool,
                         chr: bool, short: bool, long: bool, longLong: bool, precision: bool)

  const NO_FLAGS := Flags(false, false, false, false, false, false, false, false, false, false, false)

  // The digits that fit in the scratch buffer; a zero value with a precision has none.
  function Kept(value: nat, base: nat, f: Flags): (s: string)
    requires 2 <= base <= 16
    ensures |s| <= SCRATCH
  {
    if value == 0 && f.precision then "" else Last(Digits(value, base, f.upper), SCRATCH)
  }

  function Sign(negative: bool, f: Flags): (s: string)
    ensures |s| <= 1
  {
    if negative then "-" else if f.plus then "+" else if f.space then " " else ""
  }

  // One column goes to the sign when the field is filled with zeros.
  function NumberWidth(negative: bool, width: u32, f: Flags): u32 {
    if !f.left && width > 0 && f.zeropad && (negative || f.plus || f.space) then width - 1 else width
  }

  function ZeroExtended(digits: string, prec: u32, width: u32, f: Flags): string {
    if f.left then digits
    else Repeat('0', Min(SCRATCH, Max(prec, if f.zeropad then width else 0)) - |digits|) + digits
  }

  // The '#' flag takes a digit or two off the front when the digits exactly fill the field.
  function HashKept(body: string, base: nat, prec: u32, width: u32, f: Flags): string {
    if !f.precision && body != "" && (|body| == prec || |body| == width)
    then body[if base == 16 && |body| > 1 then 2 else 1..]
    else body
  }

  // The '#' flag: a digit or two may be dropped in front, then the base prefix goes there.
  function Prefixed(body: string, base: nat, prec: u32, width: u32, f: Flags): string {
    if !f.hash then body
    else
      var kept := HashKept(body, base, prec, width, f);
      var marked := if |kept| < SCRATCH && base == 16 then [if f.upper then 'X' else 'x'] + kept
                    else if |kept| < SCRATCH && base == 2 then ['b'] + kept else kept;
      if |marked| < SCRATCH then ['0'] + marked else marked
  }

  function Signed(body: string, negative: bool, f: Flags): string {
    if |body| < SCRATCH then Sign(negative, f) + body else body
  }

  // The blanks before and after len characters in a field of the given width.
  function BlanksBefore(len: nat, width: u32, f: Flags): string {
    if f.left || f.zeropad then "" else Repeat(' ', width - len)
  }

  function BlanksAfter(len: nat, width: u32, f: Flags): string {
    if f.left then Repeat(' ', width - len) else ""
  }

  function Justified(body: string, width: u32, f: Flags): string {
    BlanksBefore(|body|, width, f) + body + BlanksAfter(|body|, width, f)
  }

  lemma JustifiedLength(body: string, width: u32, f: Flags)
    ensures |Justified(body, width, f)| == |BlanksBefore(|body|, width, f)| + |body| + |BlanksAfter(|body|, width, f)|
  {
  }

  // The characters that _ntoa_format sends for the given digits.
  function Field(digits: string, negative: bool, base: nat, prec: u32, width: u32, f: Flags): string {
    var w := NumberWidth(negative, width, f);
    Justified(Signed(Prefixed(ZeroExtended(digits, prec, w, f), base, prec, w, f), negative, f), w, f)
  }

  // The characters that _ntoa_long and _ntoa_long_long send.
  function NumberText(value: nat, negative: bool, base: nat, prec: u32, width: u32, f: Flags): string
    requires 2 <= base <= 16
  {
    var f1 := if value == 0 then f.(hash := false) else f;
    Field(Kept(value, base, f1), negative, base, prec, width, f1)
  }

  // ---------- The field of section 7.21.6.1 of C11 ----------

  // Sign, then zeros up to the precision, then digits, in a field of at least the given width:
  // filled with blanks after it ('-'), with zeros behind the sign ('0'), or with blanks before it.
  function StandardField(digits: string, negative: bool, prec: nat, width: nat, f: Flags): string {
    var sign := Sign(negative, f);
    var number := Repeat('0', prec - |digits|) + digits;
    var fill := width - |sign| - |number|;
    if f.left then sign + number + Repeat(' ', fill)
    else if f.zeropad then sign + Repeat('0', fill) + number
    else Repeat(' ', fill) + sign + number
  }

  // The exact condition for the code to print the standard's field.
  predicate MeetsStandard(digits: string, negative: bool, prec: nat, width: nat, f: Flags) {
    var s := |Sign(negative, f)|;
    var n := Max(|digits|, prec);
    if f.left then prec <= |digits| && (s == 0 || |digits| < SCRATCH)
    else if f.zeropad then width - s <= SCRATCH && n <= SCRATCH && (s == 0 || Max(n, width - s) < SCRATCH)
    else n <= SCRATCH && (s == 0 || n < SCRATCH || (Sign(negative, f) == " " && width > SCRATCH))
  }

  lemma StandardFieldLength(digits: string, negative: bool, prec: nat, width: nat, f: Flags)
    ensures |StandardField(digits, negative, prec, width, f)|
            == Max(width, |Sign(negative, f)| + Max(|digits|, prec))
  {
  }

  predicate DigitsOnly(digits: string) {
    forall c | c in digits :: c != ' ' && c != '-' && c != '+'
  }

  lemma LeftShape(digits: string, negative: bool, base: nat, prec: u32, width: u32, f: Flags)
    requires !f.hash && f.left
    ensures var body := if |digits| < SCRATCH then Sign(negative, f) + digits else digits;
      Field(digits, negative, base, prec, width, f) == body + Repeat(' ', width - |body|)
  {
    var body := if |digits| < SCRATCH then Sign(negative, f) + digits else digits;
    assert "" + body == body;
  }

  lemma StandardLeft(digits: string, negative: bool, prec: nat, width: nat, f: Flags)
    requires f.left
    ensures var sign, number := Sign(negative, f), Repeat('0', prec - |digits|) + digits;
      StandardField(digits, negative, prec, width, f) == sign + number + Repeat(' ', width - |sign| - |number|)
  {
    hide Sign, Repeat;
  }

  lemma InkBefore(s: string, n: int)
    ensures Ink(s + Repeat(' ', n)) == Ink(s)
  {
    hide Ink;
    InkJoin(s, Repeat(' ', n));
    InkBlanks(n);
  }

  // The standard has a digit or a zero where the code has a blank, or nothing.
  lemma LeftLosesZeros(digits: string, negative: bool, base: nat, prec: u32, width: u32, f: Flags)
    requires |digits| < prec && DigitsOnly(digits) && !f.hash && f.left
    ensures Field(digits, negative, base, prec, width, f) != StandardField(digits, negative, prec, width, f)
  {
    hide Field, StandardField, Sign, Ink, Repeat;
    var sign, number := Sign(negative, f), Repeat('0', prec - |digits|) + digits;
    LeftShape(digits, negative, base, prec, width, f);
    StandardLeft(digits, negative, prec, width, f);
    var body := if |digits| < SCRATCH then sign + digits else digits;
    InkBefore(body, width - |body|);
    InkBefore(sign + number, width - |sign| - |number|);
    InkJoin(sign, digits);
    InkJoin(sign, number);
    InkAll(number);
  }

  lemma LeftLayout(digits: string, negative: bool, base: nat, prec: u32, width: u32, f: Flags)
    requires |digits| <= SCRATCH && DigitsOnly(digits) && !f.hash && f.left
    ensures Field(digits, negative, base, prec, width, f) == StandardField(digits, negative, prec, width, f)
            <==> MeetsStandard(digits, negative, prec, width, f)
  {
    var sign := Sign(negative, f);
    if prec > |digits| {
      LeftLosesZeros(digits, negative, base, prec, width, f);
    } else {
      LeftShape(digits, negative, base, prec, width, f);
      assert Repeat('0', prec - |digits|) + digits == digits;
      if |sign| == 1 && |digits| == SCRATCH {
        assert digits[0] in digits;
        assert Field(digits, negative, base, prec, width, f)[0] == digits[0];
        assert StandardField(digits, negative, prec, width, f)[0] == sign[0];
      }
    }
  }

  lemma NoPrefix(body: string, base: nat, prec: u32, width: u32, f: Flags)
    requires !f.hash
    ensures Prefixed(body, base, prec, width, f) == body
  {
  }

  lemma ZeroFilledShape(digits: string, negative: bool, base: nat, prec: u32, width: u32, f: Flags)
    requires |digits| <= SCRATCH && !f.hash && !f.left && f.zeropad
    ensures var sign := Sign(negative, f);
      var zeros := Min(SCRATCH, Max(prec, Max(width - |sign|, 0))) - |digits|;
      var body := Repeat('0', zeros) + digits;
      Field(digits, negative, base, prec, width, f) == if |body| < SCRATCH then sign + body else body
  {
    hide Prefixed, Repeat;
    var w := NumberWidth(negative, width, f);
    assert w == Max(width - |Sign(negative, f)|, 0);
    NoPrefix(ZeroExtended(digits, prec, w, f), base, prec, w, f);
    var text := Signed(ZeroExtended(digits, prec, w, f), negative, f);
    assert "" + text + "" == text;
  }

  lemma StandardZeros(digits: string, negative: bool, prec: u32, width: u32, f: Flags)
    requires !f.left && f.zeropad
    ensures StandardField(digits, negative, prec, width, f)
            == Sign(negative, f) + (Repeat('0', Max(prec, width - |Sign(negative, f)|) - |digits|) + digits)
  {
    hide Sign, Repeat;
    var sign := Sign(negative, f);
    var fill := width - |sign| - Max(|digits|, prec);
    RepeatJoin('0', fill, prec - |digits|, Max(prec, width - |sign|) - |digits|, digits);
    var number := Repeat('0', prec - |digits|) + digits;
    assert sign + Repeat('0', fill) + number == sign + (Repeat('0', fill) + number);
  }

  lemma ZeroFilledLayout(digits: string, negative: bool, base: nat, prec: u32, width: u32, f: Flags)
    requires |digits| <= SCRATCH && !f.hash && !f.left && f.zeropad
    ensures Field(digits, negative, base, prec, width, f) == StandardField(digits, negative, prec, width, f)
            <==> MeetsStandard(digits, negative, prec, width, f)
  {
    hide Field, StandardField;
    ZeroFilledShape(digits, negative, base, prec, width, f);
    StandardZeros(digits, negative, prec, width, f);
  }

  // With more zeros than the scratch buffer holds, some are missing.
  lemma TooManyZeros(digits: string, negative: bool, base: nat, prec: u32, width: u32, f: Flags)
    requires |digits| <= SCRATCH < prec && !f.hash && !f.left && !f.zeropad
    ensures Field(digits, negative, base, prec, width, f) != StandardField(digits, negative, prec, width, f)
  {
    var sign := Sign(negative, f);
    var number := Repeat('0', prec - |digits|) + digits;
    var code := Field(digits, negative, base, prec, width, f);
    var standard := StandardField(digits, negative, prec, width, f);
    StandardFieldLength(digits, negative, prec, width, f);
    var body := ZeroExtended(digits, prec, width, f);
    assert |body| == SCRATCH && code == Repeat(' ', width - SCRATCH) + body;
    if width >= |sign| + prec {
      var blanks := Repeat(' ', width - |sign| - |number|);
      assert standard == blanks + sign + number && |blanks + sign| == width - prec;
      assert standard[width - prec] == number[0] == '0';
      assert code[width - prec] == ' ';
    }
  }

  // A full scratch buffer has no room for the sign, which a padding blank can stand in for.
  lemma SignDropped(number: string, sign: string, width: nat)
    requires |number| == SCRATCH && |sign| == 1
    ensures Repeat(' ', width - SCRATCH) + number == Repeat(' ', width - 1 - SCRATCH) + sign + number
            <==> sign == " " && width > SCRATCH
  {
    var code := Repeat(' ', width - SCRATCH) + number;
    var standard := Repeat(' ', width - 1 - SCRATCH) + sign + number;
    if width > SCRATCH {
      var at := width - SCRATCH - 1;
      assert standard[at] == sign[0] && code[at] == ' ';
      if sign == " " {
        assert Repeat(' ', width - 1 - SCRATCH) + " " == Repeat(' ', width - SCRATCH);
      }
    } else {
      assert |code| != |standard|;
    }
  }

  lemma BlankFilledShape(digits: string, negative: bool, base: nat, prec: u32, width: u32, f: Flags)
    requires |digits| <= SCRATCH && prec <= SCRATCH && !f.hash && !f.left && !f.zeropad
    ensures var sign, number := Sign(negative, f), Repeat('0', prec - |digits|) + digits;
      var body := if |number| < SCRATCH then sign + number else number;
      && Field(digits, negative, base, prec, width, f) == Repeat(' ', width - |body|) + body
      && StandardField(digits, negative, prec, width, f) == Repeat(' ', width - |sign| - |number|) + sign + number
  {
    hide Prefixed, Sign;
    var number := Repeat('0', prec - |digits|) + digits;
    assert ZeroExtended(digits, prec, width, f) == number;
    NoPrefix(number, base, prec, width, f);
    var body := Signed(number, negative, f);
    assert Repeat(' ', width - |body|) + body + "" == Repeat(' ', width - |body|) + body;
  }

  lemma SignedBehindBlanks(sign: string, number: string, width: nat)
    ensures Repeat(' ', width - |sign| - |number|) + sign + number
            == Repeat(' ', width - |sign + number|) + (sign + number)
    ensures sign == "" ==> sign + number == number
  {
  }

  lemma BlankFilledLayout(digits: string, negative: bool, base: nat, prec: u32, width: u32, f: Flags)
    requires |digits| <= SCRATCH && !f.hash && !f.left && !f.zeropad
    ensures Field(digits, negative, base, prec, width, f) == StandardField(digits, negative, prec, width, f)
            <==> MeetsStandard(digits, negative, prec, width, f)
  {
    hide Field, StandardField, Sign, Repeat;
    var sign := Sign(negative, f);
    if prec > SCRATCH {
      TooManyZeros(digits, negative, base, prec, width, f);
    } else {
      var number := Repeat('0', prec - |digits|) + digits;
      BlankFilledShape(digits, negative, base, prec, width, f);
      if |sign| == 0 || |number| < SCRATCH {
        SignedBehindBlanks(sign, number, width);
      } else {
        SignDropped(number, sign, width);
      }
    }
  }

  // For conversions without '#', the code prints the field of the standard exactly under MeetsStandard.
  lemma LayoutExact(digits: string, negative: bool, base: nat, prec: u32, width: u32, f: Flags)
    requires |digits| <= SCRATCH && DigitsOnly(digits) && !f.hash
    ensures Field(digits, negative, base, prec, width, f) == StandardField(digits, negative, prec, width, f)
            <==> MeetsStandard(digits, negative, prec, width, f)
  {
    if f.left {
      LeftLayout(digits, negative, base, prec, width, f);
    } else if f.zeropad {
      ZeroFilledLayout(digits, negative, base, prec, width, f);
    } else {
      BlankFilledLayout(digits, negative, base, prec, width, f);
    }
  }

  // ---------- Characters that are not blank ----------

  lemma BodyFits(digits: string, negative: bool, base: nat, prec: u32, w: u32, f: Flags)
    requires |digits| <= SCRATCH
    ensures |Signed(Prefixed(ZeroExtended(digits, prec, w, f), base, prec, w, f), negative, f)| <= SCRATCH
  {
    var body := ZeroExtended(digits, prec, w, f);
    assert |body| <= SCRATCH;
    assert |Prefixed(body, base, prec, w, f)| <= SCRATCH;
  }

  lemma InkJustified(body: string, w: u32, f: Flags)
    ensures Ink(Justified(body, w, f)) == Ink(body)
  {
    hide Ink;
    var before, after := BlanksBefore(|body|, w, f), BlanksAfter(|body|, w, f);
    InkBlanks(w - |body|);
    InkBlanks(0);
    assert Repeat(' ', 0) == "";
    InkJoin(before + body, after);
    InkJoin(before, body);
  }

  // The scratch buffer limits what is not blank in a field.
  lemma FieldInk(digits: string, negative: bool, base: nat, prec: u32, width: u32, f: Flags)
    requires |digits| <= SCRATCH
    ensures |Ink(Field(digits, negative, base, prec, width, f))| <= SCRATCH
  {
    hide Justified, Signed, Prefixed, ZeroExtended;
    var w := NumberWidth(negative, width, f);
    BodyFits(digits, negative, base, prec, w, f);
    InkJustified(Signed(Prefixed(ZeroExtended(digits, prec, w, f), base, prec, w, f), negative, f), w, f);
  }

  lemma InkContains(s: string, t: string, r: string)
    requires ' ' !in t
    ensures |Ink(s + t + r)| >= |t|
  {
    InkJoin(s + t, r);
    InkJoin(s, t);
    InkAll(t);
  }

  lemma StandardInk(digits: string, negative: bool, prec: nat, width: nat, f: Flags)
    requires ' ' !in digits
    ensures |Ink(StandardField(digits, negative, prec, width, f))| >= |digits|
  {
    hide Ink;
    var sign, zeros := Sign(negative, f), Repeat('0', prec - |digits|);
    var text, fill := StandardField(digits, negative, prec, width, f), width - |sign| - |zeros + digits|;
    if f.left {
      assert text == (sign + zeros) + digits + Repeat(' ', fill);
      InkContains(sign + zeros, digits, Repeat(' ', fill));
    } else if f.zeropad {
      assert text == (sign + Repeat('0', fill) + zeros) + digits + "";
      InkContains(sign + Repeat('0', fill) + zeros, digits, "");
    } else {
      assert text == (Repeat(' ', fill) + sign + zeros) + digits + "";
      InkContains(Repeat(' ', fill) + sign + zeros, digits, "");
    }
  }

  // ---------- Digits lost to the '#' flag ----------

  predicate EndsWith(t: string, s: string) {
    |s| <= |t| && t[|t| - |s|..] == s
  }

  // The digits exactly fill the field, or fall one short of a zero-filled hexadecimal field.
  predicate HashLosesDigits(count: nat, base: nat, width: u32, f: Flags) {
    && !f.precision
    && (count == width || (base == 16 && f.zeropad && !f.left && width == count + 1 <= SCRATCH))
  }

  predicate IsDigitText(digits: string, base: nat) {
    forall c | c in digits :: (IsDigit(c) || 'a' <= c <= 'f' || 'A' <= c <= 'F') && DigitValue(c) < base
  }

  lemma DigitCharText(d: nat, base: nat, upper: bool)
    requires d < base <= 16
    ensures IsDigitText([DigitChar(d, upper)], base)
  {
  }

  lemma {:induction false} DigitsText(v: nat, base: nat, upper: bool)
    requires 2 <= base <= 16
    ensures IsDigitText(Digits(v, base, upper), base)
    decreases v
  {
    hide Digits, DigitChar;
    if v < base {
      DigitsOne(v, base, upper);
      DigitCharText(v, base, upper);
    } else {
      var q, r := DigitsSplit(v, base, upper);
      DigitsText(q, base, upper);
      DigitCharText(r, base, upper);
    }
  }

  lemma KeptText(value: nat, base: nat, f: Flags)
    requires 2 <= base <= 16
    ensures IsDigitText(Kept(value, base, f), base) && DigitsOnly(Kept(value, base, f))
  {
    DigitsText(value, base, f.upper);
  }

  lemma HashKeptDrops(body: string, base: nat, prec: u32, width: u32, f: Flags, drop: nat)
    requires drop == if !f.precision && body != "" && (|body| == prec || |body| == width)
                     then (if base == 16 && |body| > 1 then 2 else 1) else 0
    ensures drop <= |body| && HashKept(body, base, prec, width, f) == body[drop..]
    ensures drop == 0 ==> body[drop..] == body
  {
  }

  // What '#' puts in front once it has dropped what it drops.
  lemma HashedBody(body: string, base: nat, prec: u32, width: u32, f: Flags, drop: nat)
    requires f.hash && base in {2, 8, 16} && |body| <= SCRATCH
    requires drop == if !f.precision && body != "" && (|body| == prec || |body| == width)
                     then (if base == 16 && |body| > 1 then 2 else 1) else 0
    ensures var mark := if base == 16 then [if f.upper then 'X' else 'x'] else if base == 2 then "b" else "";
      Prefixed(body, base, prec, width, f)
      == if |body| - drop == SCRATCH then body
         else if |mark + body[drop..]| < SCRATCH then "0" + mark + body[drop..]
         else mark + body[drop..]
  {
    hide HashKept;
    var mark := if base == 16 then [if f.upper then 'X' else 'x'] else if base == 2 then "b" else "";
    HashKeptDrops(body, base, prec, width, f, drop);
    var kept := HashKept(body, base, prec, width, f);
    assert "0" + mark + kept == ['0'] + (mark + kept);
    assert mark == "" ==> mark + kept == kept;
  }

  lemma HashLoss(digits: string, base: nat, width: u32, f: Flags)
    requires f.hash && base in {2, 8, 16} && 0 < |digits| <= SCRATCH && digits[0] != '0'
    requires IsDigitText(digits, base) && HashLosesDigits(|digits|, base, width, f)
    ensures !EndsWith(Prefixed(ZeroExtended(digits, 0, width, f), base, 0, width, f), digits)
  {
    var body := ZeroExtended(digits, 0, width, f);
    var drop := if base == 16 && |body| > 1 then 2 else 1;
    HashedBody(body, base, 0, width, f, drop);
    var text := Prefixed(body, base, 0, width, f);
    assert digits[0] in digits;
    assert |text| < |digits| || text[|text| - |digits|] != digits[0];
  }

  lemma PrefixGoesInFront(body: string, base: nat, prec: u32, width: u32, f: Flags, drop: nat)
    requires f.hash && base in {2, 8, 16} && |body| <= SCRATCH
    requires drop == if !f.precision && body != "" && (|body| == prec || |body| == width)
                     then (if base == 16 && |body| > 1 then 2 else 1) else 0
    ensures EndsWith(Prefixed(body, base, prec, width, f), body[drop..])
  {
    HashedBody(body, base, prec, width, f, drop);
  }

  lemma SuffixOfSuffix(t: string, s: string, r: string)
    requires EndsWith(t, s) && EndsWith(s, r)
    ensures EndsWith(t, r)
  {
    assert t[|t| - |r|..] == t[|t| - |s|..][|s| - |r|..];
  }

  lemma HashNoLoss(digits: string, base: nat, prec: u32, width: u32, f: Flags)
    requires f.hash && base in {2, 8, 16} && 0 < |digits| <= SCRATCH && (f.precision || prec == 0)
    requires !HashLosesDigits(|digits|, base, width, f)
    ensures EndsWith(Prefixed(ZeroExtended(digits, prec, width, f), base, prec, width, f), digits)
  {
    var body := ZeroExtended(digits, prec, width, f);
    var drop := if !f.precision && body != "" && (|body| == prec || |body| == width)
                then (if base == 16 && |body| > 1 then 2 else 1) else 0;
    PrefixGoesInFront(body, base, prec, width, f, drop);
    assert body[drop..][|body| - drop - |digits|..] == digits;
    SuffixOfSuffix(Prefixed(body, base, prec, width, f), body[drop..], digits);
  }

  // With '#', every digit is printed exactly when HashLosesDigits is false.
  lemma HashKeepsDigits(value: nat, base: nat, prec: u32, width: u32, f: Flags)
    requires f.hash && base in {2, 8, 16} && 0 < value < Power(base, SCRATCH)
    requires f.precision || prec == 0
    ensures var digits := Kept(value, base, f);
      EndsWith(Prefixed(ZeroExtended(digits, prec, width, f), base, prec, width, f), digits)
      <==> !HashLosesDigits(|digits|, base, width, f)
  {
    var digits := Kept(value, base, f);
    DigitCount(value, base, f.upper, SCRATCH);
    NoLeadingZero(value, base, f.upper);
    KeptText(value, base, f);
    if HashLosesDigits(|digits|, base, width, f) {
      assert prec == 0;
      HashLoss(digits, base, width, f);
    } else {
      HashNoLoss(digits, base, prec, width, f);
    }
  }
}

/** The meaning of a format: it is parsed into items, and each item takes its arguments and gives a text. */
module PrintfFormat {
  import opened Machine
  import opened Text
  import opened PrintfField

  // One va_arg slot: a 32-bit word, a 64-bit word, or a pointer to a string.
  datatype Arg = Word(w: u32) | Quad(q: u64) | Str(s: CString)

  // A width or a precision: not given, a number in the format, or '*'.
  datatype Amount = Absent | Given(n: u32) | FromArg

  datatype Length = Plain | Char | Short | Long | LongLong | IntMax

  datatype Item =
    | Literal(c: char)
    | Directive(flags: string, width: Amount, precision: Amount, length: Length, conv: char)

  // ---------- Parsing ----------

  predicate IsFlag(c: char) {
    c in "0-+ #"
  }

  // The end of the run of flag characters that starts at i.
  function FlagRun(fmt: CString, i: nat): (j: nat)
    requires i <= |fmt|
    ensures i <= j <= |fmt| && (forall k | i <= k < j :: IsFlag(fmt[k])) && !IsFlag(At(fmt, j))
    decreases |fmt| - i
  {
    if IsFlag(At(fmt, i)) then FlagRun(fmt, i + 1) else i
  }

  // The end of the run of decimal digits that starts at i.
  function DigitRun(s: CString, i: nat): (j: nat)
    requires i <= |s|
    ensures i <= j <= |s| && (forall k | i <= k < j :: IsDigit(s[k])) && !IsDigit(At(s, j))
    decreases |s| - i
  {
    if IsDigit(At(s, i)) then DigitRun(s, i + 1) else i
  }

  // The number written there, in 32-bit arithmetic.
  function NumberAt(s: CString, i: nat): u32
    requires i <= |s|
  {
    Value(s[i..DigitRun(s, i)], 10) % U32
  }

  function WidthAt(fmt: CString, i: nat): (r: (Amount, nat))
    requires i <= |fmt|
    ensures i <= r.1 <= |fmt|
  {
    if IsDigit(At(fmt, i)) then (Given(NumberAt(fmt, i)), DigitRun(fmt, i))
    else if At(fmt, i) == '*' then (FromArg, i + 1)
    else (Absent, i)
  }

  // A lone '.' stands for the precision 0.
  function PrecisionAt(fmt: CString, i: nat): (r: (Amount, nat))
    requires i <= |fmt|
    ensures i <= r.1 <= |fmt|
  {
    if At(fmt, i) != '.' then (Absent, i)
    else
      var (amount, j) := WidthAt(fmt, i + 1);
      (if amount == Absent then Given(0) else amount, j)
  }

  // On this target long, size_t and ptrdiff_t have 32 bits and intmax_t has 64.
  function LengthAt(fmt: CString, i: nat): (r: (Length, nat))
    requires i <= |fmt|
    ensures i <= r.1 <= |fmt|
  {
    var c := At(fmt, i);
    if c == 'l' then (if At(fmt, i + 1) == 'l' then (LongLong, i + 2) else (Long, i + 1))
    else if c == 'h' then (if At(fmt, i + 1) == 'h' then (Char, i + 2) else (Short, i + 1))
    else if c == 't' || c == 'z' then (Long, i + 1)
    else if c == 'j' then (IntMax, i + 1)
    else (Plain, i)
  }

  // The item at i and where the next one starts; None when the format ends inside it.
  function ItemAt(fmt: CString, i: nat): (r: Option<(Item, nat)>)
    requires i < |fmt|
    ensures r.Some? ==> i < r.value.1 <= |fmt|
  {
    if fmt[i] != '%' then Some((Literal(fmt[i]), i + 1))
    else
      var j := FlagRun(fmt, i + 1);
      var (width, k) := WidthAt(fmt, j);
      var (precision, l) := PrecisionAt(fmt, k);
      var (length, m) := LengthAt(fmt, l);
      if m == |fmt| then None
      else Some((Directive(fmt[i + 1..j], width, precision, length, fmt[m]), m + 1))
  }

  function Parse(fmt: CString, i: nat): Option<seq<Item>>
    requires i <= |fmt|
    decreases |fmt| - i
  {
    if i == |fmt| then Some([])
    else match ItemAt(fmt, i)
      case None => None
      case Some((item, j)) =>
        match Parse(fmt, j)
        case None => None
        case Some(items) => Some([item] + items)
  }

  // ---------- Rendering ----------

  function FlagsOf(run: string): Flags {
    NO_FLAGS.(zeropad := '0' in run, left := '-' in run, plus := '+' in run, space := ' ' in run, hash := '#' in run)
  }

  function WithLength(f: Flags, length: Length): Flags {
    match length
    case Plain => f
    case Char => f.(short := true, chr := true)
    case Short => f.(short := true)
    case Long => f.(long := true)
    case LongLong => f.(long := true, longLong := true)
    case IntMax => f.(longLong := true)
  }

  function Signed32(w: u32): int {
    if w < 0x8000_0000 then w else w - U32
  }

  function Signed64(q: u64): int {
    if q < 0x8000_0000_0000_0000 then q else q - U64
  }

  function Signed16(w: u32): int {
    if w % 0x1_0000 < 0x8000 then w % 0x1_0000 else w % 0x1_0000 - 0x1_0000
  }

  function Signed8(w: u32): int {
    if w % 256 < 128 then w % 256 else w % 256 - 256
  }

  // Flags, width and precision as numbers, and the arguments left; a negative '*' width means '-'.
  datatype Setup = Setup(f: Flags, width: u32, prec: u32, rest: seq<Arg>)

  function WithWidth(f: Flags, width: Amount, args: seq<Arg>): Option<(Flags, u32, seq<Arg>)> {
    match width
    case Absent => Some((f, 0, args))
    case Given(n) => Some((f, n, args))
    case FromArg =>
      if args == [] || !args[0].Word? then None
      else Some((if Signed32(args[0].w) < 0 then f.(left := true) else f, Magnitude(Signed32(args[0].w)), args[1..]))
  }

  function WithPrecision(f: Flags, precision: Amount, args: seq<Arg>): Option<(Flags, u32, seq<Arg>)> {
    match precision
    case Absent => Some((f, 0, args))
    case Given(n) => Some((f.(precision := true), n, args))
    case FromArg =>
      if args == [] || !args[0].Word? then None
      else Some((f.(precision := true), Max(Signed32(args[0].w), 0), args[1..]))
  }

  function SetupOf(item: Item, args: seq<Arg>): Option<Setup>
    requires item.Directive?
  {
    match WithWidth(FlagsOf(item.flags), item.width, args)
    case None => None
    case Some((f, width, args1)) =>
      match WithPrecision(f, item.precision, args1)
      case None => None
      case Some((f1, prec, args2)) => Some(Setup(WithLength(f1, item.length), width, prec, args2))
  }

  function BaseOf(conv: char): (b: nat)
    ensures b == 2 || b == 8 || b == 10 || b == 16
  {
    if conv == 'x' || conv == 'X' then 16 else if conv == 'o' then 8 else if conv == 'b' then 2 else 10
  }

  predicate IsSigned(conv: char) {
    conv == 'd' || conv == 'i'
  }

  // The flags that an integer conversion obeys.
  function IntegerFlags(f: Flags, conv: char): Flags {
    f.(hash := f.hash && BaseOf(conv) != 10,
       upper := conv == 'X',
       plus := f.plus && IsSigned(conv),
       space := f.space && IsSigned(conv),
       zeropad := f.zeropad && !f.precision)
  }

  // The integer that the argument stands for under the conversion and its length.
  function IntegerOf(conv: char, f: Flags, arg: Arg): Option<int> {
    if f.longLong then (if arg.Quad? then Some(if IsSigned(conv) then Signed64(arg.q) else arg.q) else None)
    else if !arg.Word? then None
    else if f.long then Some(if IsSigned(conv) then Signed32(arg.w) else arg.w)
    else if f.chr then Some(if IsSigned(conv) then Signed8(arg.w) else arg.w % 256)
    else if f.short then Some(if IsSigned(conv) then Signed16(arg.w) else arg.w % 0x1_0000)
    else Some(if IsSigned(conv) then Signed32(arg.w) else arg.w)
  }

  function IntegerText(conv: char, f: Flags, width: u32, prec: u32, v: int): string {
    NumberText(Magnitude(v), v < 0, BaseOf(conv), prec, width, IntegerFlags(f, conv))
  }

  // Characters and strings are never filled with zeros.
  function Aligned(text: string, width: u32, f: Flags): (s: string)
    ensures |s| == Max(width, |text|)
  {
    Justified(text, width, f.(zeropad := false))
  }

  // At most as many characters of a string as the precision says, if one is given.
  function Cut(s: CString, prec: u32, f: Flags): string {
    if f.precision && prec < |s| then s[..prec] else s
  }

  function RenderDirective(conv: char, f: Flags, width: u32, prec: u32, args: seq<Arg>): Option<(string, seq<Arg>)> {
    if conv in "diuxXob" then
      if args == [] || IntegerOf(conv, f, args[0]) == None then None
      else
        Some((IntegerText(conv, f, width, prec, IntegerOf(conv, f, args[0]).value), args[1..]))
    else if conv in "fFeEgG" then None
    else if conv == 'c' then
      if args == [] || !args[0].Word? then None
      else Some((Aligned([(args[0].w % 256) as char], width, f), args[1..]))
    else if conv == 's' then
      if args == [] || !args[0].Str? then None
      else Some((Aligned(Cut(args[0].s, prec, f), width, f), args[1..]))
    else if conv == 'p' then
      if args == [] || !args[0].Word? then None
      else Some((NumberText(args[0].w, false, 16, prec, 8, f.(zeropad := true, upper := true)), args[1..]))
    else Some(([conv], args))
  }

  // The text of an item and the arguments left. None for a missing or mistyped argument and for
  // the floating-point conversions.
  function RenderItem(item: Item, args: seq<Arg>): Option<(string, seq<Arg>)> {
    if item.Literal? then Some(([item.c], args))
    else match SetupOf(item, args)
      case None => None
      case Some(Setup(f, width, prec, rest)) => RenderDirective(item.conv, f, width, prec, rest)
  }

  function RenderItems(items: seq<Item>, args: seq<Arg>): Option<string> {
    if items == [] then Some("")
    else match RenderItem(items[0], args)
      case None => None
      case Some((text, rest)) =>
        match RenderItems(items[1..], rest)
        case None => None
        case Some(more) => Some(text + more)
  }

  // The whole unbounded output from position i of the format on.
  function Render(fmt: CString, i: nat, args: seq<Arg>): Option<string>
    requires i <= |fmt|
  {
    match Parse(fmt, i)
    case None => None
    case Some(items) => RenderItems(items, args)
  }

  // The first item of what is left of the format, its text, and what comes after both.
  lemma RenderStep(fmt: CString, i: nat, args: seq<Arg>)
      returns (item: Item, next: nat, text: string, rest: seq<Arg>)
    requires i < |fmt| && Render(fmt, i, args).Some?
    ensures i < next <= |fmt| && ItemAt(fmt, i) == Some((item, next))
    ensures RenderItem(item, args) == Some((text, rest))
    ensures Render(fmt, next, rest).Some?
    ensures Render(fmt, i, args).value == text + Render(fmt, next, rest).value
  {
    item, next := ItemAt(fmt, i).value.0, ItemAt(fmt, i).value.1;
    var items := Parse(fmt, next).value;
    assert Parse(fmt, i).value == [item] + items;
    assert ([item] + items)[1..] == items;
    text, rest := RenderItem(item, args).value.0, RenderItem(item, args).value.1;
  }
}

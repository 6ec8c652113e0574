/** _vsnprintf and its public wrappers: one pass over the format that refines Render. */
module PrintfEngine {
  import opened Machine
  import opened Text
  import opened PrintfField
  import opened PrintfFormat
  import opened PrintfSink
  import PrintfNumber

  // ---------- Reading the format ----------

  // The length of str, looking at no more than maxsize characters.
  method Strnlen(str: CString, maxsize0: u32) returns (n: nat)
    ensures n == Min(|str|, maxsize0)
  {
    n := 0;
    var maxsize: int := maxsize0;
    while n < |str| && maxsize > 0
      invariant n <= |str| && maxsize == maxsize0 - n >= 0
    {
      maxsize := maxsize - 1;
      n := n + 1;
    }
  }

  lemma WrappedValue(s: string, v: u32)
    requires s != "" && v == Value(s[..|s| - 1], 10) % U32
    ensures (v * 10 + DigitValue(s[|s| - 1])) % U32 == Value(s, 10) % U32
  {
    var x, y := Value(s[..|s| - 1], 10), v * 10 + DigitValue(s[|s| - 1]);
    DivModMeaning(x, U32);
    DivModMeaning(y, U32);
    DivModUnique(Value(s, 10), U32, 10 * (x / U32) + y / U32, y % U32);
  }

  // The digits at i as a number modulo 2^32, and the position after them.
  method Atoi(s: CString, i0: nat) returns (v: u32, i: nat)
    requires i0 <= |s|
    ensures i == DigitRun(s, i0) && v == NumberAt(s, i0)
  {
    v, i := 0, i0;
    while IsDigit(At(s, i))
      invariant i0 <= i <= |s| && DigitRun(s, i) == DigitRun(s, i0)
      invariant v == Value(s[i0..i], 10) % U32
      decreases |s| - i
    {
      assert i < |s| && |s[i0..i + 1]| == i - i0 + 1;
      assert s[i0..i + 1][..i - i0] == s[i0..i];
      WrappedValue(s[i0..i + 1], v);
      v := (v * 10 + DigitValue(s[i])) % U32;
      i := i + 1;
    }
  }

  // Which flags a run of flag characters has set.
  ghost predicate Seen(run: string, zeropad: bool, left: bool, plus: bool, space: bool, hash: bool) {
    && zeropad == ('0' in run) && left == ('-' in run) && plus == ('+' in run)
    && space == (' ' in run) && hash == ('#' in run)
  }

  lemma SeenStep(fmt: CString, i0: nat, i: nat, zeropad: bool, left: bool, plus: bool, space: bool, hash: bool)
    requires i0 <= i < |fmt| && Seen(fmt[i0..i], zeropad, left, plus, space, hash)
    ensures var c := fmt[i];
      Seen(fmt[i0..i + 1], zeropad || c == '0', left || c == '-', plus || c == '+', space || c == ' ', hash || c == '#')
  {
    assert fmt[i0..i + 1] == fmt[i0..i] + [fmt[i]];
  }

  lemma NoneSeen(run: string)
    requires run == ""
    ensures Seen(run, false, false, false, false, false)
  {
  }

  lemma SeenFlags(run: string, zeropad: bool, left: bool, plus: bool, space: bool, hash: bool)
    requires Seen(run, zeropad, left, plus, space, hash)
    ensures NO_FLAGS.(zeropad := zeropad, left := left, plus := plus, space := space, hash := hash) == FlagsOf(run)
  {
  }

  method ParseFlags(fmt: CString, i0: nat) returns (f: Flags, i: nat)
    requires i0 <= |fmt|
    ensures i == FlagRun(fmt, i0) && f == FlagsOf(fmt[i0..i])
  {
    hide Seen, FlagsOf;
    i := i0;
    var zeropad, left, plus, space, hash := false, false, false, false, false;
    var n := 1;
    NoneSeen(fmt[i0..i0]);
    while n != 0
      invariant i0 <= i <= |fmt| && FlagRun(fmt, i) == FlagRun(fmt, i0)
      invariant Seen(fmt[i0..i], zeropad, left, plus, space, hash)
      invariant n == 0 ==> !IsFlag(At(fmt, i))
      decreases |fmt| - i, n
    {
      if i < |fmt| {
        SeenStep(fmt, i0, i, zeropad, left, plus, space, hash);
      }
      match At(fmt, i)
      case '0' => zeropad := true; i := i + 1; n := 1;
      case '-' => left := true; i := i + 1; n := 1;
      case '+' => plus := true; i := i + 1; n := 1;
      case ' ' => space := true; i := i + 1; n := 1;
      case '#' => hash := true; i := i + 1; n := 1;
      case _ => n := 0;
    }
    SeenFlags(fmt[i0..i], zeropad, left, plus, space, hash);
    f := NO_FLAGS.(zeropad := zeropad, left := left, plus := plus, space := space, hash := hash);
  }

  method ParseWidth(fmt: CString, i0: nat, f0: Flags, va0: seq<Arg>)
      returns (f: Flags, width: u32, i: nat, va: seq<Arg>)
    requires i0 <= |fmt| && WithWidth(f0, WidthAt(fmt, i0).0, va0).Some?
    ensures i == WidthAt(fmt, i0).1
    ensures (f, width, va) == WithWidth(f0, WidthAt(fmt, i0).0, va0).value
  {
    f, width, i, va := f0, 0, i0, va0;
    if IsDigit(At(fmt, i)) {
      width, i := Atoi(fmt, i);
    } else if At(fmt, i) == '*' {
      var w := Signed32(va[0].w);
      va := va[1..];
      if w < 0 {
        f := f.(left := true);
        width := -w;
      } else {
        width := w;
      }
      i := i + 1;
    }
  }

  method ParsePrecision(fmt: CString, i0: nat, f0: Flags, va0: seq<Arg>)
      returns (f: Flags, prec: u32, i: nat, va: seq<Arg>)
    requires i0 <= |fmt| && WithPrecision(f0, PrecisionAt(fmt, i0).0, va0).Some?
    ensures i == PrecisionAt(fmt, i0).1
    ensures (f, prec, va) == WithPrecision(f0, PrecisionAt(fmt, i0).0, va0).value
  {
    f, prec, i, va := f0, 0, i0, va0;
    if At(fmt, i) == '.' {
      f := f.(precision := true);
      i := i + 1;
      if IsDigit(At(fmt, i)) {
        prec, i := Atoi(fmt, i);
      } else if At(fmt, i) == '*' {
        var p := Signed32(va[0].w);
        va := va[1..];
        prec := if p > 0 then p else 0;
        i := i + 1;
      }
    }
  }

  method ParseLength(fmt: CString, i0: nat, f0: Flags) returns (f: Flags, i: nat)
    requires i0 <= |fmt|
    ensures i == LengthAt(fmt, i0).1 && f == WithLength(f0, LengthAt(fmt, i0).0)
  {
    i := i0;
    var chr, short, long, longLong := f0.chr, f0.short, f0.long, f0.longLong;
    if At(fmt, i) == 'l' {
      long := true;
      i := i + 1;
      if At(fmt, i) == 'l' {
        longLong := true;
        i := i + 1;
      }
    } else if At(fmt, i) == 'h' {
      short := true;
      i := i + 1;
      if At(fmt, i) == 'h' {
        chr := true;
        i := i + 1;
      }
    } else if At(fmt, i) == 't' || At(fmt, i) == 'z' {
      long := true;
      i := i + 1;
    } else if At(fmt, i) == 'j' {
      longLong := true;
      i := i + 1;
    }
    f := f0.(chr := chr, short := short, long := long, longLong := longLong);
  }

  // ---------- Sending the conversions ----------

  // Negating in unsigned arithmetic gives the magnitude, for the most negative value too.
  lemma UnsignedMagnitude(v: int, modulus: int)
    requires 0 < modulus && -modulus < v < modulus
    ensures (if v > 0 then v else (0 - v) % modulus) == Magnitude(v)
  {
    if v <= 0 {
      DivModUnique(0 - v, modulus, 0, 0 - v);
    }
  }

  method FormatSigned(out: OutFct, sink: Sink, idx: nat, maxlen: u32, base: nat, f: Flags, width: u32, prec: u32,
                      arg: Arg) returns (end: nat)
    requires 2 <= base <= 16 && IntegerOf('d', f, arg).Some?
    requires var v := IntegerOf('d', f, arg).value;
      sink.Room(out, idx + |NumberText(Magnitude(v), v < 0, base, prec, width, f)|, maxlen)
    modifies sink, sink.buffer
    ensures var v := IntegerOf('d', f, arg).value;
      && sink.Now() == Emit(out, old(sink.Now()), idx, maxlen,
                            NumberText(Magnitude(v), v < 0, base, prec, width, f))
      && end == idx + |NumberText(Magnitude(v), v < 0, base, prec, width, f)|
  {
    if f.longLong {
      var value := Signed64(arg.q);
      UnsignedMagnitude(value, U64);
      end := PrintfNumber.NtoaLongLong(out, sink, idx, maxlen, if value > 0 then value else (0 - value) % U64,
                                       value < 0, base, prec, width, f);
    } else {
      var value := if f.long then Signed32(arg.w)
                   else if f.chr then Signed8(arg.w) else if f.short then Signed16(arg.w) else Signed32(arg.w);
      UnsignedMagnitude(value, U32);
      end := PrintfNumber.NtoaLong(out, sink, idx, maxlen, if value > 0 then value else (0 - value) % U32,
                                   value < 0, base, prec, width, f);
    }
  }

  method FormatUnsigned(out: OutFct, sink: Sink, idx: nat, maxlen: u32, base: nat, f: Flags, width: u32, prec: u32,
                        arg: Arg) returns (end: nat)
    requires 2 <= base <= 16 && IntegerOf('u', f, arg).Some?
    requires sink.Room(out, idx + |NumberText(IntegerOf('u', f, arg).value, false, base, prec, width, f)|, maxlen)
    modifies sink, sink.buffer
    ensures sink.Now() == Emit(out, old(sink.Now()), idx, maxlen,
                               NumberText(IntegerOf('u', f, arg).value, false, base, prec, width, f))
    ensures end == idx + |NumberText(IntegerOf('u', f, arg).value, false, base, prec, width, f)|
  {
    if f.longLong {
      end := PrintfNumber.NtoaLongLong(out, sink, idx, maxlen, arg.q, false, base, prec, width, f);
    } else {
      var value: u32 := if f.long then arg.w
                        else if f.chr then arg.w % 256 else if f.short then arg.w % 0x1_0000 else arg.w;
      end := PrintfNumber.NtoaLong(out, sink, idx, maxlen, value, false, base, prec, width, f);
    }
  }

  // The base of an integer conversion and the flags it obeys.
  method IntegerSetup(conv: char, f0: Flags) returns (base: nat, f: Flags)
    ensures base == BaseOf(conv) && f == IntegerFlags(f0, conv)
  {
    base := 10;
    var zeropad, plus, space, hash := f0.zeropad, f0.plus, f0.space, f0.hash;
    if conv == 'x' || conv == 'X' {
      base := 16;
    } else if conv == 'o' {
      base := 8;
    } else if conv == 'b' {
      base := 2;
    } else {
      hash := false;
    }
    if conv != 'i' && conv != 'd' {
      plus, space := false, false;
    }
    if f0.precision {
      zeropad := false;
    }
    f := f0.(zeropad := zeropad, plus := plus, space := space, hash := hash, upper := conv == 'X');
  }

  method FormatInteger(out: OutFct, sink: Sink, idx: nat, maxlen: u32, conv: char, f0: Flags, width: u32, prec: u32,
                       arg: Arg) returns (end: nat)
    requires IntegerOf(conv, f0, arg).Some?
    requires sink.Room(out, idx + |IntegerText(conv, f0, width, prec, IntegerOf(conv, f0, arg).value)|, maxlen)
    modifies sink, sink.buffer
    ensures sink.Now() == Emit(out, old(sink.Now()), idx, maxlen,
                               IntegerText(conv, f0, width, prec, IntegerOf(conv, f0, arg).value))
    ensures end == idx + |IntegerText(conv, f0, width, prec, IntegerOf(conv, f0, arg).value)|
  {
    var base, f := IntegerSetup(conv, f0);
    if IsSigned(conv) {
      assert IntegerOf('d', f, arg) == IntegerOf(conv, f0, arg);
      end := FormatSigned(out, sink, idx, maxlen, base, f, width, prec, arg);
    } else {
      assert IntegerOf('u', f, arg) == IntegerOf(conv, f0, arg);
      end := FormatUnsigned(out, sink, idx, maxlen, base, f, width, prec, arg);
    }
  }

  method FormatChar(out: OutFct, sink: Sink, idx: nat, maxlen: u32, c: char, width: u32, f: Flags) returns (end: nat)
    requires sink.Room(out, idx + |Aligned([c], width, f)|, maxlen)
    modifies sink, sink.buffer
    ensures sink.Now() == Emit(out, old(sink.Now()), idx, maxlen, Aligned([c], width, f))
    ensures end == idx + |Aligned([c], width, f)|
  {
    hide Emit, Put, Justified, BlanksBefore, BlanksAfter;
    var g := f.(zeropad := false);
    ghost var v0 := sink.Now();
    JustifiedLength([c], width, g);
    end := PrintfNumber.OutBefore(out, sink, idx, maxlen, 1, width, g);
    ghost var v1 := sink.Now();
    EmitOne(out, v1, end, maxlen, c);
    sink.Out(out, c, end, maxlen);
    ghost var v2 := sink.Now();
    end := PrintfNumber.OutAfter(out, sink, end + 1, maxlen, 1, width, g);
    PrintfNumber.EmitJustified(out, v0, v1, v2, sink.Now(), idx, maxlen, [c], width, g);
  }

  // After p characters of a cut string, another one follows or it is complete.
  lemma CutPrefix(s: CString, prec: u32, f: Flags, p: nat)
    requires p <= |Cut(s, prec, f)|
    ensures p <= |s| && (p < |Cut(s, prec, f)| <==> p < |s| && (f.precision ==> p < prec))
    ensures p == |Cut(s, prec, f)| ==> s[..p] == Cut(s, prec, f)
  {
  }

  // The characters of s, as many as the precision allows.
  method OutCut(out: OutFct, sink: Sink, idx: nat, maxlen: u32, s: CString, prec: u32, f: Flags) returns (end: nat)
    requires sink.Room(out, idx + |Cut(s, prec, f)|, maxlen)
    modifies sink, sink.buffer
    ensures sink.Now() == Emit(out, old(sink.Now()), idx, maxlen, Cut(s, prec, f))
    ensures end == idx + |Cut(s, prec, f)|
  {
    hide Emit, Put, Cut;
    end := idx;
    var p: nat, precision: nat := 0, prec;
    CutPrefix(s, prec, f, 0);
    EmitNone(out, sink.Now(), idx, maxlen, s[..0]);
    while p < |s| && (!f.precision || precision > 0)
      invariant p <= |Cut(s, prec, f)| && p <= |s| && end == idx + p && (f.precision ==> precision == prec - p)
      invariant sink.Now() == Emit(out, old(sink.Now()), idx, maxlen, s[..p])
      decreases |s| - p
    {
      CutPrefix(s, prec, f, p);
      EmitSnoc(out, old(sink.Now()), idx, maxlen, s[..p], s[p]);
      assert s[..p] + [s[p]] == s[..p + 1];
      sink.Out(out, s[p], end, maxlen);
      if f.precision {
        precision := precision - 1;
      }
      end, p := end + 1, p + 1;
    }
    CutPrefix(s, prec, f, p);
  }

  method CutLength(s: CString, prec: u32, f: Flags) returns (l: nat)
    requires |Cut(s, prec, f)| < U32 && (f.precision || prec == 0)
    ensures l == |Cut(s, prec, f)|
  {
    l := Strnlen(s, if prec != 0 then prec else U32 - 1);
    if f.precision {
      l := if l < prec then l else prec;
    }
  }

  method FormatString(out: OutFct, sink: Sink, idx: nat, maxlen: u32, s: CString, prec: u32, width: u32, f: Flags)
      returns (end: nat)
    requires sink.Room(out, idx + |Aligned(Cut(s, prec, f), width, f)|, maxlen)
    requires |Cut(s, prec, f)| < U32 && (f.precision || prec == 0)
    modifies sink, sink.buffer
    ensures sink.Now() == Emit(out, old(sink.Now()), idx, maxlen, Aligned(Cut(s, prec, f), width, f))
    ensures end == idx + |Aligned(Cut(s, prec, f), width, f)|
  {
    hide Emit, Justified, BlanksBefore, BlanksAfter, Cut;
    var g := f.(zeropad := false);
    var l := CutLength(s, prec, f);
    JustifiedLength(Cut(s, prec, f), width, g);
    ghost var v0 := sink.Now();
    end := PrintfNumber.OutBefore(out, sink, idx, maxlen, l, width, g);
    ghost var v1 := sink.Now();
    end := OutCut(out, sink, end, maxlen, s, prec, f);
    ghost var v2 := sink.Now();
    end := PrintfNumber.OutAfter(out, sink, end, maxlen, l, width, g);
    PrintfNumber.EmitJustified(out, v0, v1, v2, sink.Now(), idx, maxlen, Cut(s, prec, f), width, g);
  }

  // One directive, once its flags, width, precision and length are read.
  method FormatDirective(out: OutFct, sink: Sink, idx: nat, maxlen: u32, conv: char, f: Flags, width: u32, prec: u32,
                         va0: seq<Arg>, ghost text: string, ghost rest: seq<Arg>) returns (end: nat, va: seq<Arg>)
    requires RenderDirective(conv, f, width, prec, va0) == Some((text, rest)) && (f.precision || prec == 0)
    requires |text| < U32 && sink.Room(out, idx + |text|, maxlen)
    modifies sink, sink.buffer
    ensures sink.Now() == Emit(out, old(sink.Now()), idx, maxlen, text)
    ensures end == idx + |text| && va == rest
  {
    hide IntegerText, NumberText, IntegerOf, Aligned, Cut, Emit, Put;
    va := va0;
    if conv in "diuxXob" {
      end := FormatInteger(out, sink, idx, maxlen, conv, f, width, prec, va[0]);
      va := va[1..];
    } else if conv == 'c' {
      end := FormatChar(out, sink, idx, maxlen, (va[0].w % 256) as char, width, f);
      va := va[1..];
    } else if conv == 's' {
      end := FormatString(out, sink, idx, maxlen, va[0].s, prec, width, f);
      va := va[1..];
    } else if conv == 'p' {
      end := PrintfNumber.NtoaLong(out, sink, idx, maxlen, va[0].w, false, 16, prec, 8,
                                   f.(zeropad := true, upper := true));
      va := va[1..];
    } else {
      EmitOne(out, sink.Now(), idx, maxlen, conv);
      sink.Out(out, conv, idx, maxlen);
      end := idx + 1;
    }
  }

  lemma SetupFromParts(item: Item, va0: seq<Arg>, f0: Flags, f1: Flags, width: u32, va1: seq<Arg>, f2: Flags,
                       prec: u32, va2: seq<Arg>, f: Flags)
    requires item.Directive? && f0 == FlagsOf(item.flags)
    requires WithWidth(f0, item.width, va0) == Some((f1, width, va1))
    requires WithPrecision(f1, item.precision, va1) == Some((f2, prec, va2))
    requires f == WithLength(f2, item.length)
    ensures SetupOf(item, va0) == Some(Setup(f, width, prec, va2))
  {
    hide WithWidth, WithPrecision, WithLength;
  }

  lemma PrecisionFlag(f1: Flags, precision: Amount, va1: seq<Arg>, f2: Flags, prec: u32, va2: seq<Arg>, length: Length)
    requires WithPrecision(f1, precision, va1) == Some((f2, prec, va2))
    ensures WithLength(f2, length).precision || prec == 0
  {
  }

  lemma SetupParts(item: Item, va: seq<Arg>)
    requires item.Directive? && SetupOf(item, va).Some?
    ensures WithWidth(FlagsOf(item.flags), item.width, va).Some?
    ensures var (f, _, rest) := WithWidth(FlagsOf(item.flags), item.width, va).value;
      WithPrecision(f, item.precision, rest).Some?
  {
  }

  // Reads the directive that follows a '%' at i0 - 1.
  method ParseDirective(fmt: CString, i0: nat, va0: seq<Arg>, ghost item: Item, ghost next: nat)
      returns (conv: char, f: Flags, width: u32, prec: u32, i: nat, va: seq<Arg>)
    requires 0 < i0 <= |fmt| && fmt[i0 - 1] == '%' && ItemAt(fmt, i0 - 1) == Some((item, next))
    requires item.Directive? && SetupOf(item, va0).Some?
    ensures i == next && conv == item.conv
    ensures SetupOf(item, va0) == Some(Setup(f, width, prec, va))
    ensures f.precision || prec == 0
  {
    hide SetupOf, WithWidth, WithPrecision, WithLength, FlagsOf, WidthAt, PrecisionAt, LengthAt;
    SetupParts(item, va0);
    var f0, f1, f2, va1;
    f0, i := ParseFlags(fmt, i0);
    f1, width, i, va1 := ParseWidth(fmt, i, f0, va0);
    f2, prec, i, va := ParsePrecision(fmt, i, f1, va1);
    PrecisionFlag(f1, item.precision, va1, f2, prec, va, item.length);
    f, i := ParseLength(fmt, i, f2);
    SetupFromParts(item, va0, f0, f1, width, va1, f2, prec, va, f);
    conv := fmt[i];
    i := i + 1;
  }

  // The body of the engine's loop: a literal character, or a whole directive.
  method SendItem(out: OutFct, sink: Sink, idx: nat, maxlen: u32, fmt: CString, i0: nat, va0: seq<Arg>,
                  ghost item: Item, ghost next: nat, ghost text: string, ghost rest: seq<Arg>)
      returns (end: nat, i: nat, va: seq<Arg>)
    requires i0 < |fmt| && ItemAt(fmt, i0) == Some((item, next)) && RenderItem(item, va0) == Some((text, rest))
    requires |text| < U32 && sink.Room(out, idx + |text|, maxlen)
    modifies sink, sink.buffer
    ensures sink.Now() == Emit(out, old(sink.Now()), idx, maxlen, text)
    ensures end == idx + |text| && i == next && va == rest
  {
    hide SetupOf, RenderDirective;
    i, va := i0, va0;
    if fmt[i] != '%' {
      EmitSnoc(out, sink.Now(), idx, maxlen, "", fmt[i]);
      assert "" + [fmt[i]] == text;
      sink.Out(out, fmt[i], idx, maxlen);
      end := idx + 1;
      i := i + 1;
    } else {
      i := i + 1;
      var conv, f, width, prec;
      conv, f, width, prec, i, va := ParseDirective(fmt, i, va, item, next);
      end, va := FormatDirective(out, sink, idx, maxlen, conv, f, width, prec, va, text, rest);
    }
  }

  // The engine's loop over the format.
  method SendItems(out: OutFct, sink: Sink, maxlen: u32, fmt: CString, va0: seq<Arg>) returns (idx: nat)
    requires Render(fmt, 0, va0).Some? && |Render(fmt, 0, va0).value| < U32
    requires sink.Room(out, |Render(fmt, 0, va0).value|, maxlen)
    modifies sink, sink.buffer
    ensures sink.Now() == Emit(out, old(sink.Now()), 0, maxlen, Render(fmt, 0, va0).value)
    ensures idx == |Render(fmt, 0, va0).value|
  {
    hide RenderItem, ItemAt;
    ghost var start, text, done := sink.Now(), Render(fmt, 0, va0).value, "";
    var i: nat, va := 0, va0;
    idx := 0;
    assert "" + text == text;
    while i < |fmt|
      invariant i <= |fmt| && idx == |done|
      invariant Render(fmt, i, va).Some? && done + Render(fmt, i, va).value == text
      invariant sink.Now() == Emit(out, start, 0, maxlen, done)
      decreases |fmt| - i
    {
      ghost var item, next, piece, rest := RenderStep(fmt, i, va);
      ghost var more := Render(fmt, next, rest).value;
      assert done + (piece + more) == (done + piece) + more;
      ghost var before, at := sink.Now(), idx;
      idx, i, va := SendItem(out, sink, idx, maxlen, fmt, i, va, item, next, piece, rest);
      EmitThen(out, start, before, sink.Now(), at, maxlen, done, piece);
      done := done + piece;
    }
    assert done + "" == done;
  }

  // The engine sends the rendered text, then a NUL behind it or at the end of the buffer.
  method Vsnprintf(out0: OutFct, sink: Sink, maxlen: u32, fmt: CString, va: seq<Arg>) returns (ret: nat)
    requires Render(fmt, 0, va).Some? && |Render(fmt, 0, va).value| < 0x8000_0000
    requires out0 == OutBuffer && sink.buffer != null ==>
               Min(|Render(fmt, 0, va).value| + 1, maxlen) <= sink.buffer.Length
    modifies sink, sink.buffer
    ensures var text, out := Render(fmt, 0, va).value, if sink.buffer == null then OutNull else out0;
      && sink.Now() == Put(out, Emit(out, old(sink.Now()), 0, maxlen, text), '\0',
                           if |text| < maxlen then |text| else (maxlen - 1) % U32, maxlen)
      && ret == |text|
  {
    var out := out0;
    if sink.buffer == null {
      out := OutNull;
    }
    var idx := SendItems(out, sink, maxlen, fmt, va);
    sink.Out(out, '\0', if idx < maxlen then idx else (maxlen - 1) % U32, maxlen);
    ret := idx;
  }

  // ---------- The public functions ----------

  // What the buffer holds after the text and the closing NUL are sent to it.
  lemma TruncatedMemory(start: View, end: View, count: u32, text: string)
    requires Min(|text| + 1, count) <= |start.mem|
    requires end == Put(OutBuffer, Emit(OutBuffer, start, 0, count, text), '\0',
                        if |text| < count then |text| else (count - 1) % U32, count)
    ensures count == 0 ==> end.mem == start.mem
    ensures count > 0 ==>
      var m := Min(|text|, count - 1);
      && |end.mem| == |start.mem| && end.mem[..m] == text[..m] && end.mem[m] == '\0'
      && forall k | m < k < |start.mem| :: end.mem[k] == start.mem[k]
  {
    EmitToBuffer(start, 0, count, text);
  }

  // Section 7.21.6.5 of C11: with a count of 0 nothing is written; otherwise the first count - 1
  // characters at most, then a NUL, and nothing behind it. The result is the untruncated length.
  method Snprintf(buffer: array?<char>, count: u32, fmt: CString, va: seq<Arg>) returns (ret: nat)
    requires Render(fmt, 0, va).Some? && |Render(fmt, 0, va).value| < 0x8000_0000
    requires buffer != null ==> Min(|Render(fmt, 0, va).value| + 1, count) <= buffer.Length
    modifies buffer
    ensures ret == |Render(fmt, 0, va).value|
    ensures buffer != null && count == 0 ==> buffer[..] == old(buffer[..])
    ensures buffer != null && count > 0 ==>
      var text := Render(fmt, 0, va).value;
      var m := Min(|text|, count - 1);
      && buffer[..m] == text[..m] && buffer[m] == '\0'
      && forall k | m < k < buffer.Length :: buffer[k] == old(buffer[k])
  {
    var sink := new Sink(buffer);
    ghost var start := sink.Now();
    ret := Vsnprintf(OutBuffer, sink, count, fmt, va);
    if buffer != null {
      TruncatedMemory(start, sink.Now(), count, Render(fmt, 0, va).value);
      assert sink.Now().mem == buffer[..];
    }
  }

  // sprintf is snprintf with the largest count: the text, then a NUL.
  method Sprintf(buffer: array<char>, fmt: CString, va: seq<Arg>) returns (ret: nat)
    requires Render(fmt, 0, va).Some? && |Render(fmt, 0, va).value| < 0x8000_0000
    requires |Render(fmt, 0, va).value| + 1 <= buffer.Length
    modifies buffer
    ensures ret == |Render(fmt, 0, va).value|
    ensures buffer[..ret] == Render(fmt, 0, va).value && buffer[ret] == '\0'
    ensures forall k | ret < k < buffer.Length :: buffer[k] == old(buffer[k])
  {
    ret := Snprintf(buffer, U32 - 1, fmt, va);
  }

  // printf shows the text without its NUL characters, which the result still counts.
  method Printf(sink: Sink, fmt: CString, va: seq<Arg>) returns (ret: nat)
    requires Render(fmt, 0, va).Some? && |Render(fmt, 0, va).value| < 0x8000_0000
    requires sink.buffer != null && sink.buffer.Length == 1
    modifies sink, sink.buffer
    ensures ret == |Render(fmt, 0, va).value|
    ensures sink.shown == old(sink.shown) + WithoutNul(Render(fmt, 0, va).value)
    ensures sink.buffer[..] == old(sink.buffer[..])
  {
    EmitToConsole(sink.Now(), 0, U32 - 1, Render(fmt, 0, va).value);
    ret := Vsnprintf(OutChar, sink, U32 - 1, fmt, va);
    assert sink.Now().mem == sink.buffer[..];
  }
}

/** The number converters: digits in reverse into a scratch buffer, then padding, prefix and sign. */
module PrintfNumber {
  import opened Machine
  import opened SoftDivision
  import opened Text
  import opened PrintfField
  import opened PrintfSink

  method OutReversed(out: OutFct, sink: Sink, idx: nat, maxlen: u32, buf: array<char>, len: nat) returns (end: nat)
    requires len <= buf.Length && buf != sink.buffer
    requires sink.Room(out, idx + len, maxlen)
    modifies sink, sink.buffer
    ensures sink.Now() == Emit(out, old(sink.Now()), idx, maxlen, Rev(buf[..len]))
    ensures end == idx + len
  {
    hide Emit, Put, Rev;
    end := idx;
    var n: nat := len;
    RevNone(buf[len..len]);
    EmitNone(out, sink.Now(), idx, maxlen, Rev(buf[len..len]));
    while n > 0
      invariant n <= len && end == idx + (len - n)
      invariant sink.Now() == Emit(out, old(sink.Now()), idx, maxlen, Rev(buf[n..len]))
      invariant buf[..] == old(buf[..])
    {
      n := n - 1;
      assert buf[n..len][1..] == buf[n + 1..len];
      RevStep(buf[n..len]);
      EmitSnoc(out, old(sink.Now()), idx, maxlen, Rev(buf[n + 1..len]), buf[n]);
      sink.Out(out, buf[n], end, maxlen);
      end := end + 1;
    }
    assert buf[0..len] == buf[..len];
  }

  method OutBefore(out: OutFct, sink: Sink, idx: nat, maxlen: u32, len: nat, width: u32, f: Flags) returns (end: nat)
    requires sink.Room(out, idx + |BlanksBefore(len, width, f)|, maxlen)
    modifies sink, sink.buffer
    ensures sink.Now() == Emit(out, old(sink.Now()), idx, maxlen, BlanksBefore(len, width, f))
    ensures end == idx + |BlanksBefore(len, width, f)|
  {
    end := idx;
    if !f.left && !f.zeropad {
      end := sink.OutBlanks(out, end, maxlen, len, width);
    }
  }

  method OutAfter(out: OutFct, sink: Sink, idx: nat, maxlen: u32, len: nat, width: u32, f: Flags) returns (end: nat)
    requires sink.Room(out, idx + |BlanksAfter(len, width, f)|, maxlen)
    modifies sink, sink.buffer
    ensures sink.Now() == Emit(out, old(sink.Now()), idx, maxlen, BlanksAfter(len, width, f))
    ensures end == idx + |BlanksAfter(len, width, f)|
  {
    end := idx;
    if f.left {
      end := sink.OutBlanks(out, end, maxlen, len, width);
    }
  }

  // Sending the blanks before, the characters and the blanks after sends the justified text.
  lemma EmitJustified(out: OutFct, v0: View, v1: View, v2: View, v3: View, idx: nat, maxlen: u32, body: string,
                      width: u32, f: Flags)
    requires var before, after := BlanksBefore(|body|, width, f), BlanksAfter(|body|, width, f);
      && v1 == Emit(out, v0, idx, maxlen, before)
      && v2 == Emit(out, v1, idx + |before|, maxlen, body)
      && v3 == Emit(out, v2, idx + |before| + |body|, maxlen, after)
    ensures v3 == Emit(out, v0, idx, maxlen, Justified(body, width, f))
  {
    var before, after := BlanksBefore(|body|, width, f), BlanksAfter(|body|, width, f);
    EmitAppend(out, v0, idx, maxlen, before, body);
    EmitAppend(out, v0, idx, maxlen, before + body, after);
  }

  method OutRev(out: OutFct, sink: Sink, idx: nat, maxlen: u32, buf: array<char>, len: nat, width: u32, f: Flags)
      returns (end: nat)
    requires len <= buf.Length && buf != sink.buffer
    requires sink.Room(out, idx + |Justified(Rev(buf[..len]), width, f)|, maxlen)
    modifies sink, sink.buffer
    ensures sink.Now() == Emit(out, old(sink.Now()), idx, maxlen, Justified(Rev(buf[..len]), width, f))
    ensures end == idx + |Justified(Rev(buf[..len]), width, f)|
  {
    hide Emit, Rev, Justified, BlanksBefore, BlanksAfter;
    ghost var v0, body := sink.Now(), Rev(buf[..len]);
    JustifiedLength(body, width, f);
    end := OutBefore(out, sink, idx, maxlen, len, width, f);
    ghost var v1 := sink.Now();
    assert Rev(buf[..len]) == body;
    end := OutReversed(out, sink, end, maxlen, buf, len);
    ghost var v2 := sink.Now();
    end := OutAfter(out, sink, end, maxlen, len, width, f);
    assert Rev(buf[..len]) == body;
    EmitJustified(out, v0, v1, v2, sink.Now(), idx, maxlen, body, width, f);
  }

  // Stores c in front of the reversed text.
  method PushDigit(buf: array<char>, len: nat, c: char)
    requires len < buf.Length
    modifies buf
    ensures Rev(buf[..len + 1]) == [c] + Rev(old(buf[..len]))
  {
    buf[len] := c;
    assert buf[..len + 1] == old(buf[..len]) + [c];
    RevPush(old(buf[..len]), c);
  }

  // Zeros up to a length, as far as the scratch buffer goes.
  method PushZeros(buf: array<char>, len: nat, upTo: nat) returns (n: nat)
    requires len <= buf.Length == SCRATCH
    modifies buf
    ensures n == Max(len, Min(upTo, SCRATCH))
    ensures Rev(buf[..n]) == Repeat('0', n - len) + Rev(old(buf[..len]))
  {
    hide Rev;
    n := len;
    assert Repeat('0', 0) + Rev(buf[..len]) == Rev(buf[..len]);
    while n < upTo && n < SCRATCH
      invariant len <= n <= SCRATCH && (n <= upTo || n == len)
      invariant Rev(buf[..n]) == Repeat('0', n - len) + Rev(old(buf[..len]))
    {
      PushDigit(buf, n, '0');
      n := n + 1;
      assert ['0'] + (Repeat('0', n - 1 - len) + Rev(old(buf[..len]))) == Repeat('0', n - len) + Rev(old(buf[..len]));
    }
  }

  // Filling up to the precision and then to the width fills up to the larger of the two.
  lemma ZerosInTwoSteps(digits: string, prec: nat, width: nat)
    requires |digits| <= SCRATCH
    ensures var n := Max(|digits|, Min(prec, SCRATCH));
      Repeat('0', Max(n, Min(width, SCRATCH)) - n) + (Repeat('0', n - |digits|) + digits)
      == Repeat('0', Min(SCRATCH, Max(prec, width)) - |digits|) + digits
  {
    var n := Max(|digits|, Min(prec, SCRATCH));
    RepeatJoin('0', Max(n, Min(width, SCRATCH)) - n, n - |digits|, Min(SCRATCH, Max(prec, width)) - |digits|, digits);
  }

  // Leading zeros up to the precision, and with the '0' flag up to the width.
  method PushPadding(buf: array<char>, len0: nat, negative: bool, prec: u32, width0: u32, f: Flags)
      returns (len: nat, width: u32)
    requires len0 <= buf.Length == SCRATCH
    modifies buf
    ensures len <= SCRATCH && width == NumberWidth(negative, width0, f)
    ensures Rev(buf[..len]) == ZeroExtended(Rev(old(buf[..len0])), prec, width, f)
  {
    hide Rev, Repeat;
    len, width := len0, width0;
    if !f.left {
      if width > 0 && f.zeropad && (negative || f.plus || f.space) {
        width := width - 1;
      }
      ZerosInTwoSteps(Rev(buf[..len0]), prec, if f.zeropad then width else 0);
      len := PushZeros(buf, len, prec);
      if f.zeropad {
        len := PushZeros(buf, len, width);
      }
    }
  }

  // Giving up the last stored character drops the first of the reversed text.
  lemma RevDrop(s: string)
    requires s != ""
    ensures Rev(s[..|s| - 1]) == Rev(s)[1..]
  {
    var t, c := s[..|s| - 1], s[|s| - 1];
    assert s == t + [c];
    RevPush(t, c);
    assert ([c] + Rev(t))[1..] == Rev(t);
  }

  // The '#' flag first takes a digit or two off the front ...
  method DropDigits(buf: array<char>, len0: nat, base: nat, prec: u32, width: u32, f: Flags) returns (len: nat)
    requires len0 <= buf.Length
    ensures len <= len0
    ensures Rev(buf[..len]) == HashKept(Rev(buf[..len0]), base, prec, width, f)
  {
    len := len0;
    if !f.precision && len > 0 && (len == prec || len == width) {
      RevDrop(buf[..len]);
      assert buf[..len][..len - 1] == buf[..len - 1];
      len := len - 1;
      if len > 0 && base == 16 {
        RevDrop(buf[..len]);
        assert buf[..len][..len - 1] == buf[..len - 1];
        len := len - 1;
      }
    }
  }

  // ... and then puts the base prefix there.
  method PushPrefix(buf: array<char>, len0: nat, base: nat, prec: u32, width: u32, f: Flags) returns (len: nat)
    requires len0 <= buf.Length == SCRATCH
    modifies buf
    ensures len <= SCRATCH
    ensures Rev(buf[..len]) == Prefixed(Rev(old(buf[..len0])), base, prec, width, f)
  {
    len := len0;
    if f.hash {
      len := DropDigits(buf, len, base, prec, width, f);
      if base == 16 && !f.upper && len < SCRATCH {
        PushDigit(buf, len, 'x');
        len := len + 1;
      } else if base == 16 && f.upper && len < SCRATCH {
        PushDigit(buf, len, 'X');
        len := len + 1;
      } else if base == 2 && len < SCRATCH {
        PushDigit(buf, len, 'b');
        len := len + 1;
      }
      if len < SCRATCH {
        PushDigit(buf, len, '0');
        len := len + 1;
      }
    }
  }

  method PushSign(buf: array<char>, len0: nat, negative: bool, f: Flags) returns (len: nat)
    requires len0 <= buf.Length == SCRATCH
    modifies buf
    ensures len <= SCRATCH
    ensures Rev(buf[..len]) == Signed(Rev(old(buf[..len0])), negative, f)
  {
    len := len0;
    if len < SCRATCH {
      if negative {
        PushDigit(buf, len, '-');
        len := len + 1;
      } else if f.plus {
        PushDigit(buf, len, '+');
        len := len + 1;
      } else if f.space {
        PushDigit(buf, len, ' ');
        len := len + 1;
      } else {
        assert "" + Rev(buf[..len]) == Rev(buf[..len]);
      }
    }
  }

  method NtoaFormat(out: OutFct, sink: Sink, idx: nat, maxlen: u32, buf: array<char>, len0: nat, negative: bool,
                    base: nat, prec: u32, width0: u32, f: Flags) returns (end: nat)
    requires len0 <= buf.Length == SCRATCH && buf != sink.buffer
    requires sink.Room(out, idx + |Field(Rev(buf[..len0]), negative, base, prec, width0, f)|, maxlen)
    modifies sink, sink.buffer, buf
    ensures sink.Now() == Emit(out, old(sink.Now()), idx, maxlen,
                               Field(Rev(old(buf[..len0])), negative, base, prec, width0, f))
    ensures end == idx + |Field(Rev(old(buf[..len0])), negative, base, prec, width0, f)|
  {
    hide Emit, Rev, Justified, Signed, Prefixed, ZeroExtended, NumberWidth;
    var len, width := PushPadding(buf, len0, negative, prec, width0, f);
    len := PushPrefix(buf, len, base, prec, width, f);
    len := PushSign(buf, len, negative, f);
    assert sink.Now() == old(sink.Now());
    end := OutRev(out, sink, idx, maxlen, buf, len, width, f);
  }

  // The digits still to be stored: those of the value, or none once the loop has ended with value 0.
  function Remaining(value: nat, base: nat, upper: bool, more: bool): string
    requires 2 <= base <= 16
  {
    if !more && value == 0 then "" else Digits(value, base, upper)
  }

  lemma DigitStep(value: nat, base: nat, upper: bool, more: bool, tail: string)
    requires 2 <= base <= 16 && (value / base == 0 ==> !more)
    ensures 0 <= value % base < base && 0 <= value / base <= value
    ensures Digits(value, base, upper) + tail
            == Remaining(value / base, base, upper, more) + ([DigitChar(value % base, upper)] + tail)
  {
    QuotientRange(value, base);
    DivModMeaning(value, base);
    var digit := [DigitChar(value % base, upper)];
    if value < base {
      DivModUnique(value, base, 0, value);
      assert digit + tail == "" + (digit + tail);
    } else {
      var front := Digits(value / base, base, upper);
      assert (front + digit) + tail == front + (digit + tail);
    }
  }

  lemma SuffixIsLast(front: string, back: string, n: nat)
    requires (front == "" && |back| <= n) || |back| == n
    ensures Last(front + back, n) == back
  {
    assert front == "" ==> front + back == back;
  }

  // The digit loop of _ntoa_long, skipped for a zero value with a precision.
  method StoreDigits(buf: array<char>, value0: u32, base: nat, f: Flags) returns (len: nat)
    requires 2 <= base <= 16 && buf.Length == SCRATCH
    modifies buf
    ensures len <= SCRATCH && Rev(buf[..len]) == Kept(value0, base, f)
  {
    len := 0;
    if f.precision && value0 == 0 {
      return;
    }
    var upper := f.upper;
    var value: u32, more := value0, true;
    assert Digits(value0, base, upper) + Rev(buf[..0]) == Digits(value0, base, upper);
    while more
      invariant len <= SCRATCH && (more ==> len < SCRATCH) && (!more ==> value == 0 || len == SCRATCH)
      invariant Remaining(value, base, upper, more) + Rev(buf[..len]) == Digits(value0, base, upper)
      decreases more, SCRATCH - len
    {
      ghost var more1 := value / base != 0 && len + 1 < SCRATCH;
      DigitStep(value, base, upper, more1, Rev(buf[..len]));
      PushDigit(buf, len, DigitChar(value % base, upper));
      len := len + 1;
      value := value / base;
      more := value != 0 && len < SCRATCH;
    }
    SuffixIsLast(Remaining(value, base, upper, more), Rev(buf[..len]), SCRATCH);
  }

  // The digit loop of _ntoa_long_long, where % and / are calls of the software division.
  method StoreLongDigits(buf: array<char>, value0: u64, base: nat, f: Flags) returns (len: nat)
    requires 2 <= base <= 16 && buf.Length == SCRATCH
    modifies buf
    ensures len <= SCRATCH && Rev(buf[..len]) == Kept(value0, base, f)
  {
    len := 0;
    if f.precision && value0 == 0 {
      return;
    }
    var upper := f.upper;
    var value: u64, more := value0, true;
    assert Digits(value0, base, upper) + Rev(buf[..0]) == Digits(value0, base, upper);
    while more
      invariant len <= SCRATCH && (more ==> len < SCRATCH) && (!more ==> value == 0 || len == SCRATCH)
      invariant Remaining(value, base, upper, more) + Rev(buf[..len]) == Digits(value0, base, upper)
      decreases more, SCRATCH - len
    {
      ghost var more1 := value / base != 0 && len + 1 < SCRATCH;
      DigitStep(value, base, upper, more1, Rev(buf[..len]));
      var digit := Umoddi3(value, base);
      PushDigit(buf, len, DigitChar(digit, upper));
      len := len + 1;
      value := Udivdi3(value, base);
      more := value != 0 && len < SCRATCH;
    }
    SuffixIsLast(Remaining(value, base, upper, more), Rev(buf[..len]), SCRATCH);
  }

  method NtoaLong(out: OutFct, sink: Sink, idx: nat, maxlen: u32, value: u32, negative: bool, base: nat, prec: u32,
                  width: u32, f0: Flags) returns (end: nat)
    requires 2 <= base <= 16
    requires sink.Room(out, idx + |NumberText(value, negative, base, prec, width, f0)|, maxlen)
    modifies sink, sink.buffer
    ensures sink.Now() == Emit(out, old(sink.Now()), idx, maxlen, NumberText(value, negative, base, prec, width, f0))
    ensures end == idx + |NumberText(value, negative, base, prec, width, f0)|
  {
    var buf := new char[SCRATCH];
    var len: nat, f := 0, f0;
    if value == 0 {
      f := f.(hash := false);
    }
    len := StoreDigits(buf, value, base, f);
    end := NtoaFormat(out, sink, idx, maxlen, buf, len, negative, base, prec, width, f);
  }

  method NtoaLongLong(out: OutFct, sink: Sink, idx: nat, maxlen: u32, value: u64, negative: bool, base: nat,
                      prec: u32, width: u32, f0: Flags) returns (end: nat)
    requires 2 <= base <= 16
    requires sink.Room(out, idx + |NumberText(value, negative, base, prec, width, f0)|, maxlen)
    modifies sink, sink.buffer
    ensures sink.Now() == Emit(out, old(sink.Now()), idx, maxlen, NumberText(value, negative, base, prec, width, f0))
    ensures end == idx + |NumberText(value, negative, base, prec, width, f0)|
  {
    var buf := new char[SCRATCH];
    var len: nat, f := 0, f0;
    if value == 0 {
      f := f.(hash := false);
    }
    len := StoreLongDigits(buf, value, base, f);
    end := NtoaFormat(out, sink, idx, maxlen, buf, len, negative, base, prec, width, f);
  }
}

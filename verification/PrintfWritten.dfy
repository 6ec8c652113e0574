/** Writing a directive and parsing it: every flag, width, precision, length and conversion comes back. */
module PrintfWritten {
  import opened Machine
  import opened Text
  import opened PrintfField
  import opened PrintfFormat
  import opened PrintfTheorems

  function AmountText(a: Amount): string {
    match a
    case Absent => ""
    case Given(n) => Digits(n, 10, false)
    case FromArg => "*"
  }

  function PrecisionText(a: Amount): string {
    if a == Absent then "" else "." + AmountText(a)
  }

  function LengthText(l: Length): string {
    match l
    case Plain => ""
    case Char => "hh"
    case Short => "h"
    case Long => "l"
    case LongLong => "ll"
    case IntMax => "j"
  }

  // A directive as it stands in a format.
  function Written(flags: string, width: Amount, precision: Amount, length: Length, conv: char): string {
    "%" + flags + AmountText(width) + PrecisionText(precision) + LengthText(length) + [conv]
  }

  // No character of the other parts of a directive.
  predicate IsConversion(c: char) {
    && !('0' <= c <= '9') && c != '\0' && c != '-' && c != '+' && c != ' ' && c != '#' && c != '*' && c != '.'
    && c != 'l' && c != 'h' && c != 't' && c != 'j' && c != 'z'
  }

  // A width of 0 would read as the flag.
  predicate Writable(flags: string, width: Amount, conv: char) {
    && (forall c | c in flags :: c == '0' || c == '-' || c == '+' || c == ' ' || c == '#')
    && width != Given(0) && IsConversion(conv)
  }

  // What stands at position i of s up to its end.
  ghost predicate StandsAt(s: string, i: nat, t: string) {
    i <= |s| && s[i..] == t
  }

  lemma StandsNext(s: string, i: nat, t: string, r: string)
    requires StandsAt(s, i, t + r)
    ensures StandsAt(s, i + |t|, r)
    ensures forall k | 0 <= k < |t| :: s[i + k] == t[k]
    ensures r != "" ==> i + |t| < |s| && s[i + |t|] == r[0]
    ensures s[i..i + |t|] == t
  {
    assert forall k | 0 <= k < |t| :: s[i..][k] == (t + r)[k];
    assert r != "" ==> s[i..][|t|] == (t + r)[|t|];
    assert s[i + |t|..] == s[i..][|t|..] == (t + r)[|t|..] == r;
  }

  lemma {:induction false} RunOverFlags(s: CString, i: nat, n: nat)
    requires i <= n <= |s| && (forall k | i <= k < n :: IsFlag(s[k])) && !IsFlag(At(s, n))
    ensures FlagRun(s, i) == n
    decreases n - i
  {
    if i < n {
      RunOverFlags(s, i + 1, n);
    }
  }

  lemma NumberRead(s: CString, i: nat, n: u32, rest: string)
    requires StandsAt(s, i, Digits(n, 10, false) + rest) && rest != "" && !IsDigit(rest[0])
    ensures i < |s| && IsDigit(s[i])
    ensures DigitRun(s, i) == i + |Digits(n, 10, false)| && NumberAt(s, i) == n
  {
    hide Digits, Value, DigitRun;
    var digits := Digits(n, 10, false);
    StandsNext(s, i, digits, rest);
    DigitsAreDecimal(n);
    DigitsDenote(n, 10, false);
    forall k | i <= k < i + |digits| ensures IsDigit(s[k]) {
      assert s[i + (k - i)] == digits[k - i] && digits[k - i] in digits;
    }
    RunOverDigits(s, i, i + |digits|);
  }

  lemma AmountRead(s: CString, i: nat, a: Amount, rest: string)
    requires StandsAt(s, i, AmountText(a) + rest) && rest != "" && !IsDigit(rest[0]) && (a == Absent ==> rest[0] != '*')
    ensures i <= |s| && WidthAt(s, i) == (a, i + |AmountText(a)|)
  {
    hide Digits, DigitRun, NumberAt;
    StandsNext(s, i, AmountText(a), rest);
    if a.Given? {
      NumberRead(s, i, a.n, rest);
    }
  }

  lemma PrecisionRead(s: CString, i: nat, a: Amount, rest: string)
    requires StandsAt(s, i, PrecisionText(a) + rest) && rest != "" && !IsDigit(rest[0]) && rest[0] != '.'
    ensures i <= |s| && PrecisionAt(s, i) == (a, i + |PrecisionText(a)|)
  {
    hide WidthAt;
    StandsNext(s, i, PrecisionText(a), rest);
    if a != Absent {
      assert PrecisionText(a) + rest == "." + (AmountText(a) + rest);
      StandsNext(s, i, ".", AmountText(a) + rest);
      AmountRead(s, i + 1, a, rest);
    }
  }

  // A dot alone is a precision of 0.
  lemma LoneDot(s: CString, i: nat, rest: string)
    requires StandsAt(s, i, "." + rest) && rest != "" && !('0' <= rest[0] <= '9') && rest[0] != '*'
    ensures i <= |s| && PrecisionAt(s, i) == (Given(0), i + 1)
  {
    StandsNext(s, i, ".", rest);
  }

  // A ptrdiff_t and a size_t have the size of a long.
  lemma OtherLengths(s: CString, i: nat, c: char, rest: string)
    requires StandsAt(s, i, [c] + rest) && (c == 't' || c == 'z')
    ensures i <= |s| && LengthAt(s, i) == (Long, i + 1)
  {
    StandsNext(s, i, [c], rest);
  }

  lemma LengthRead(s: CString, i: nat, l: Length, conv: char)
    requires StandsAt(s, i, LengthText(l) + [conv]) && IsConversion(conv)
    ensures i <= |s| && LengthAt(s, i) == (l, i + |LengthText(l)|)
  {
    StandsNext(s, i, LengthText(l), [conv]);
  }

  lemma FlagsRead(s: CString, flags: string, rest: string)
    requires StandsAt(s, 1, flags + rest) && rest != "" && !IsFlag(rest[0])
    requires forall c | c in flags :: c == '0' || c == '-' || c == '+' || c == ' ' || c == '#'
    ensures FlagRun(s, 1) == 1 + |flags| && s[1..1 + |flags|] == flags
  {
    StandsNext(s, 1, flags, rest);
    forall k | 1 <= k < 1 + |flags| ensures IsFlag(s[k]) {
      assert s[1 + (k - 1)] == flags[k - 1] && flags[k - 1] in flags;
      assert "0-+ #"[0] == '0' && "0-+ #"[1] == '-' && "0-+ #"[2] == '+' && "0-+ #"[3] == ' ' && "0-+ #"[4] == '#';
    }
    RunOverFlags(s, 1, 1 + |flags|);
  }

  // The characters with which the parts behind the flags can start.
  lemma FirstOfRest(width: Amount, precision: Amount, length: Length, conv: char)
    requires width != Given(0) && IsConversion(conv)
    ensures var rest := LengthText(length) + [conv];
      rest != "" && !IsDigit(rest[0]) && rest[0] != '.' && rest[0] != '*' && !IsFlag(rest[0])
    ensures var rest := PrecisionText(precision) + (LengthText(length) + [conv]);
      rest != "" && !IsDigit(rest[0]) && rest[0] != '*' && !IsFlag(rest[0])
    ensures var rest := AmountText(width) + (PrecisionText(precision) + (LengthText(length) + [conv]));
      rest != "" && !IsFlag(rest[0])
  {
    if width.Given? {
      NoLeadingZero(width.n, 10, false);
      DigitsAreDecimal(width.n);
      hide Digits;
      assert Digits(width.n, 10, false)[0] in Digits(width.n, 10, false);
    }
  }

  lemma NoNulWritten(flags: string, width: Amount, precision: Amount, length: Length, conv: char)
    requires Writable(flags, width, conv)
    ensures '\0' !in Written(flags, width, precision, length, conv)
  {
    if width.Given? {
      DigitsAreDecimal(width.n);
    }
    if precision.Given? {
      DigitsAreDecimal(precision.n);
    }
    hide Digits;
    assert '\0' !in AmountText(width) && '\0' !in AmountText(precision) && '\0' !in LengthText(length);
  }

  lemma PartsStand(fmt: string, flags: string, w: string, p: string, l: string, conv: char)
    requires fmt == "%" + flags + w + p + l + [conv]
    ensures fmt[0] == '%' && StandsAt(fmt, 1, flags + (w + (p + (l + [conv]))))
    ensures StandsAt(fmt, 1 + |flags|, w + (p + (l + [conv])))
    ensures StandsAt(fmt, 1 + |flags| + |w|, p + (l + [conv]))
    ensures StandsAt(fmt, 1 + |flags| + |w| + |p|, l + [conv])
    ensures |fmt| == 1 + |flags| + |w| + |p| + |l| + 1 && fmt[|fmt| - 1] == conv
  {
    assert fmt[1..] == flags + (w + (p + (l + [conv])));
    StandsNext(fmt, 1, flags, w + (p + (l + [conv])));
    StandsNext(fmt, 1 + |flags|, w, p + (l + [conv]));
    StandsNext(fmt, 1 + |flags| + |w|, p, l + [conv]);
  }

  lemma ParseOne(fmt: CString, item: Item)
    requires fmt != "" && ItemAt(fmt, 0) == Some((item, |fmt|))
    ensures Parse(fmt, 0) == Some([item])
  {
    hide ItemAt;
    assert Parse(fmt, |fmt|) == Some([]) && [item] + [] == [item];
  }

  // Parsing a written directive gives its parts back.
  lemma WriteThenParse(flags: string, width: Amount, precision: Amount, length: Length, conv: char)
    requires Writable(flags, width, conv)
    ensures var fmt := Written(flags, width, precision, length, conv);
      '\0' !in fmt && Parse(fmt, 0) == Some([Directive(flags, width, precision, length, conv)])
  {
    hide FlagRun, WidthAt, PrecisionAt, LengthAt, AmountText, PrecisionText, LengthText, StandsAt;
    NoNulWritten(flags, width, precision, length, conv);
    var fmt: CString := Written(flags, width, precision, length, conv);
    var item := Directive(flags, width, precision, length, conv);
    var w, p, l := AmountText(width), PrecisionText(precision), LengthText(length);
    var j, k, m := 1 + |flags|, 1 + |flags| + |w|, 1 + |flags| + |w| + |p|;
    FirstOfRest(width, precision, length, conv);
    PartsStand(fmt, flags, w, p, l, conv);
    FlagsRead(fmt, flags, w + (p + (l + [conv])));
    AmountRead(fmt, j, width, p + (l + [conv]));
    PrecisionRead(fmt, k, precision, l + [conv]);
    LengthRead(fmt, m, length, conv);
    assert ItemAt(fmt, 0) == Some((item, |fmt|));
    ParseOne(fmt, item);
  }
}

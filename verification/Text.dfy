/** C strings, runs of a character, and the digits of a number in a base. */
module Text {
  import opened Machine

  // The characters before the terminating NUL.
  type CString = s: string | '\0' !in s witness ""

  // What the pointer s + i reads.
  function At(s: string, i: nat): char
    requires i <= |s|
  {
    if i < |s| then s[i] else '\0'
  }

  function Repeat(c: char, n: int): (s: string)
    ensures |s| == Max(n, 0) && forall k | 0 <= k < |s| :: s[k] == c
  {
    seq(Max(n, 0), _ => c)
  }

  lemma RepeatJoin(c: char, m: int, n: int, k: int, s: string)
    requires Max(m, 0) + Max(n, 0) == Max(k, 0)
    ensures Repeat(c, m) + (Repeat(c, n) + s) == Repeat(c, k) + s
  {
  }

  function Rev(s: string): (r: string)
    ensures |r| == |s|
  {
    if s == "" then "" else Rev(s[1..]) + [s[0]]
  }

  lemma RevNone(s: string)
    requires s == ""
    ensures Rev(s) == ""
  {
  }

  lemma RevStep(s: string)
    requires s != ""
    ensures Rev(s) == Rev(s[1..]) + [s[0]]
  {
  }

  // Storing a character after the first n of a buffer puts it in front of what is read backwards.
  lemma {:induction false} RevPush(s: string, c: char)
    ensures Rev(s + [c]) == [c] + Rev(s)
  {
    if s != "" {
      assert (s + [c])[1..] == s[1..] + [c];
      RevPush(s[1..], c);
    }
  }

  // The last n characters of s.
  function Last(s: string, n: nat): string {
    if |s| <= n then s else s[|s| - n..]
  }

  // A string without its blanks.
  function Ink(s: string): (t: string)
    ensures |t| <= |s|
  {
    if s == "" then "" else (if s[0] == ' ' then "" else [s[0]]) + Ink(s[1..])
  }

  lemma {:induction false} InkJoin(s: string, t: string)
    ensures Ink(s + t) == Ink(s) + Ink(t)
  {
    if s == "" {
      assert s + t == t;
    } else {
      assert (s + t)[1..] == s[1..] + t;
      InkJoin(s[1..], t);
    }
  }

  lemma {:induction false} InkBlanks(n: int)
    ensures Ink(Repeat(' ', n)) == ""
    decreases n
  {
    if n > 0 {
      assert Repeat(' ', n)[1..] == Repeat(' ', n - 1);
      InkBlanks(n - 1);
    }
  }

  lemma {:induction false} InkAll(s: string)
    requires ' ' !in s
    ensures Ink(s) == s
  {
    if s != "" {
      InkAll(s[1..]);
      assert s == [s[0]] + s[1..];
    }
  }

  predicate IsDigit(c: char) {
    '0' <= c <= '9'
  }

  function DigitChar(d: nat, upper: bool): char
    requires d < 16
  {
    if d < 10 then ('0' as int + d) as char
    else ((if upper then 'A' else 'a') as int + d - 10) as char
  }

  function DigitValue(c: char): (d: nat)
    ensures d < 16
  {
    if '0' <= c <= '9' then c as int - '0' as int
    else if 'a' <= c <= 'f' then c as int - 'a' as int + 10
    else if 'A' <= c <= 'F' then c as int - 'A' as int + 10
    else 0
  }

  // The number that a string of digits denotes.
  function Value(s: string, base: nat): nat {
    if s == "" then 0 else Value(s[..|s| - 1], base) * base + DigitValue(s[|s| - 1])
  }

  lemma ValueSnoc(s: string, c: char, base: nat)
    ensures Value(s + [c], base) == Value(s, base) * base + DigitValue(c)
  {
    assert (s + [c])[..|s|] == s;
  }

  lemma ValueOne(c: char, base: nat)
    ensures Value([c], base) == DigitValue(c)
  {
    ValueSnoc("", c, base);
    assert "" + [c] == [c];
  }

  // The digits of v, most significant first.
  function Digits(v: nat, base: nat, upper: bool): (s: string)
    requires 2 <= base <= 16
    ensures |s| > 0
    decreases v
  {
    if v < base then [DigitChar(v, upper)]
    else Digits(v / base, base, upper) + [DigitChar(v % base, upper)]
  }

  lemma DigitCharValue(d: nat, upper: bool)
    requires d < 16
    ensures DigitValue(DigitChar(d, upper)) == d
  {
  }

  lemma QuotientRange(v: nat, base: nat)
    requires 2 <= base
    ensures 0 <= v / base <= v && (v / base == 0 <==> v < base)
  {
    DivModMeaning(v, base);
    if v / base <= 0 {
      MulLe(v / base, 0, base);
    } else {
      MulLe(1, v / base, base);
      MulLe(1, base, v / base);
    }
  }

  lemma DigitsUnfold(v: nat, base: nat, upper: bool)
    requires 2 <= base <= 16 && base <= v && 0 <= v % base < base && 0 <= v / base
    ensures Digits(v, base, upper) == Digits(v / base, base, upper) + [DigitChar(v % base, upper)]
  {
    hide DigitChar;
  }

  lemma DigitsOne(v: nat, base: nat, upper: bool)
    requires 2 <= base <= 16 && v < base
    ensures Digits(v, base, upper) == [DigitChar(v, upper)]
  {
  }

  // The last digit and the digits before it.
  lemma DigitsSplit(v: nat, base: nat, upper: bool) returns (q: nat, r: nat)
    requires 2 <= base <= 16 && base <= v
    ensures v == q * base + r && r < base && 0 < q < v
    ensures Digits(v, base, upper) == Digits(q, base, upper) + [DigitChar(r, upper)]
  {
    q, r := v / base, v % base;
    hide Digits;
    DivModMeaning(v, base);
    QuotientRange(v, base);
    MulLe(2, base, q);
    DigitsUnfold(v, base, upper);
  }

  // Reading the digits back gives the number.
  lemma {:induction false} DigitsDenote(v: nat, base: nat, upper: bool)
    requires 2 <= base <= 16
    ensures Value(Digits(v, base, upper), base) == v
    decreases v
  {
    hide Digits, Value, DigitChar;
    if v < base {
      DigitsOne(v, base, upper);
      DigitCharValue(v, upper);
      ValueOne(DigitChar(v, upper), base);
    } else {
      var q, r := DigitsSplit(v, base, upper);
      DigitsDenote(q, base, upper);
      DigitCharValue(r, upper);
      ValueSnoc(Digits(q, base, upper), DigitChar(r, upper), base);
    }
  }

  lemma DigitCase(d: nat, upper: bool)
    requires d < 16
    ensures var c := DigitChar(d, upper); '0' <= c <= '9' || (if upper then 'A' <= c <= 'F' else 'a' <= c <= 'f')
  {
  }

  // Letters are lower or upper case as asked for; with the values above this fixes every character.
  lemma {:induction false} DigitsCase(v: nat, base: nat, upper: bool)
    requires 2 <= base <= 16
    ensures forall c | c in Digits(v, base, upper) ::
              '0' <= c <= '9' || (if upper then 'A' <= c <= 'F' else 'a' <= c <= 'f')
    decreases v
  {
    hide Digits, DigitChar;
    if v < base {
      DigitsOne(v, base, upper);
      DigitCase(v, upper);
    } else {
      var q, r := DigitsSplit(v, base, upper);
      DigitsCase(q, base, upper);
      DigitCase(r, upper);
    }
  }

  lemma DigitCharZero(d: nat, upper: bool)
    requires d < 16
    ensures DigitChar(d, upper) == '0' <==> d == 0
  {
  }

  lemma {:induction false} NoLeadingZero(v: nat, base: nat, upper: bool)
    requires 2 <= base <= 16
    ensures Digits(v, base, upper)[0] == '0' <==> v == 0
    decreases v
  {
    hide Digits, DigitChar;
    if v < base {
      DigitsOne(v, base, upper);
      DigitCharZero(v, upper);
    } else {
      var q, r := DigitsSplit(v, base, upper);
      NoLeadingZero(q, base, upper);
    }
  }

  function Power(b: nat, n: nat): (p: nat)
    ensures b > 0 ==> p > 0
  {
    if n == 0 then 1 else b * Power(b, n - 1)
  }

  lemma QuotientBelow(v: nat, base: nat, p: nat, q: nat, r: nat)
    requires v == q * base + r && v < base * p
    ensures q < p
  {
    if q >= p {
      MulLe(p, q, base);
    }
  }

  lemma {:induction false} DigitCount(v: nat, base: nat, upper: bool, n: nat)
    requires 2 <= base <= 16 && n > 0 && v < Power(base, n)
    ensures |Digits(v, base, upper)| <= n
    decreases n
  {
    hide Digits, DigitChar;
    if v < base {
      DigitsOne(v, base, upper);
    } else {
      assert Power(base, 1) == base * Power(base, 0) == base;
      var q, r := DigitsSplit(v, base, upper);
      QuotientBelow(v, base, Power(base, n - 1), q, r);
      DigitCount(q, base, upper, n - 1);
    }
  }

  lemma QuotientAtLeast(v: nat, base: nat, p: nat, q: nat, r: nat)
    requires v == q * base + r && r < base && base * p <= v
    ensures q >= p
  {
    assert (q + 1) * base == q * base + base;
    if q < p {
      MulLe(q + 1, p, base);
    }
  }

  lemma {:induction false} DigitsLonger(v: nat, base: nat, upper: bool, n: nat)
    requires 2 <= base <= 16 && Power(base, n) <= v
    ensures |Digits(v, base, upper)| > n
    decreases n
  {
    hide Digits, DigitChar;
    if n > 0 {
      MulLe(1, Power(base, n - 1), base);
      var q, r := DigitsSplit(v, base, upper);
      QuotientAtLeast(v, base, Power(base, n - 1), q, r);
      DigitsLonger(q, base, upper, n - 1);
    }
  }

  lemma ModScale(x: nat, m: nat, b: nat, c: nat)
    requires m > 0 && b > 0 && c < b
    ensures (x * b + c) % (b * m) == (x % m) * b + c
  {
    DivModMeaning(x, m);
    var q, r := x / m, x % m;
    assert x * b + c == q * (b * m) + (r * b + c) by {
      assert (q * m) * b == q * (b * m);
      assert (q * m + r) * b == (q * m) * b + r * b;
    }
    MulLe(r + 1, m, b);
    assert (r + 1) * b == r * b + b;
    DivModUnique(x * b + c, b * m, q, r * b + c);
  }

  lemma LastSnoc(s: string, c: char, n: nat)
    requires n > 0
    ensures Last(s + [c], n) == Last(s, n - 1) + [c]
  {
  }

  lemma LastOfNone(s: string, base: nat)
    ensures Value(Last(s, 0), base) == 0 == Value(s, base) % Power(base, 0)
  {
    assert Last(s, 0) == "";
  }

  lemma LastOfEmpty(base: nat, n: nat)
    requires base > 0
    ensures Value(Last("", n), base) == Value("", base) % Power(base, n)
  {
    DivModUnique(0, Power(base, n), 0, 0);
  }

  // Keeping the last n digits reduces the number modulo base^n.
  lemma {:induction false} LastDigitsDenote(s: string, base: nat, n: nat)
    requires 2 <= base <= 16 && forall c | c in s :: DigitValue(c) < base
    ensures Value(Last(s, n), base) == Value(s, base) % Power(base, n)
    decreases |s|
  {
    hide Value, Last;
    if n == 0 {
      LastOfNone(s, base);
    } else if s == "" {
      LastOfEmpty(base, n);
    } else {
      var s1, c := s[..|s| - 1], s[|s| - 1];
      assert s == s1 + [c];
      LastDigitsDenote(s1, base, n - 1);
      LastSnoc(s1, c, n);
      ValueSnoc(s1, c, base);
      ValueSnoc(Last(s1, n - 1), c, base);
      ModScale(Value(s1, base), Power(base, n - 1), base, DigitValue(c));
    }
  }

  lemma {:induction false} DigitsInBase(v: nat, base: nat, upper: bool)
    requires 2 <= base <= 16
    ensures forall c | c in Digits(v, base, upper) :: DigitValue(c) < base
    decreases v
  {
    hide Digits, DigitChar;
    if v < base {
      DigitsOne(v, base, upper);
      DigitCharValue(v, upper);
    } else {
      var q, r := DigitsSplit(v, base, upper);
      DigitsInBase(q, base, upper);
      DigitCharValue(r, upper);
    }
  }
}

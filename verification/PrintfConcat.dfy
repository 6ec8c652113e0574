/** Printing with two formats one after the other is printing with both at once. */
module PrintfConcat {
  import opened Machine
  import opened Text
  import opened PrintfFormat

  // The n characters of s from i on are those of t from j on.
  ghost predicate Agree(s: string, i: nat, t: string, j: nat, n: nat) {
    i + n <= |s| && j + n <= |t| && s[i..i + n] == t[j..j + n]
  }

  lemma AgreeAt(s: string, i: nat, t: string, j: nat, n: nat, k: nat)
    requires Agree(s, i, t, j, n) && k < n
    ensures i + k < |s| && j + k < |t| && s[i + k] == t[j + k]
    ensures Agree(s, i + k, t, j + k, n - k)
  {
    assert s[i..i + n][k] == t[j..j + n][k];
    assert s[i + k..i + n] == s[i..i + n][k..] && t[j + k..j + n] == t[j..j + n][k..];
  }

  lemma AgreeLess(s: string, i: nat, t: string, j: nat, n: nat, k: nat)
    requires Agree(s, i, t, j, n) && k <= n
    ensures i + k <= |s| && j + k <= |t| && s[i..i + k] == t[j..j + k] && Agree(s, i, t, j, k)
  {
    assert s[i..i + k] == s[i..i + n][..k] && t[j..j + k] == t[j..j + n][..k];
  }

  // ---------- What is read depends on the characters read, and the one behind them ----------

  lemma {:induction false} SameFlagRun(s: CString, i: nat, t: CString, j: nat, n: nat)
    requires Agree(s, i, t, j, n) && FlagRun(s, i) < i + n
    ensures FlagRun(t, j) - j == FlagRun(s, i) - i
    decreases n
  {
    AgreeAt(s, i, t, j, n, 0);
    if IsFlag(s[i]) {
      AgreeAt(s, i, t, j, n, 1);
      SameFlagRun(s, i + 1, t, j + 1, n - 1);
    }
  }

  lemma {:induction false} SameDigitRun(s: CString, i: nat, t: CString, j: nat, n: nat)
    requires Agree(s, i, t, j, n) && DigitRun(s, i) < i + n
    ensures DigitRun(t, j) - j == DigitRun(s, i) - i
    decreases n
  {
    AgreeAt(s, i, t, j, n, 0);
    if IsDigit(s[i]) {
      AgreeAt(s, i, t, j, n, 1);
      SameDigitRun(s, i + 1, t, j + 1, n - 1);
    }
  }

  lemma SameWidth(s: CString, i: nat, t: CString, j: nat, n: nat)
    requires Agree(s, i, t, j, n) && WidthAt(s, i).1 < i + n
    ensures WidthAt(t, j).0 == WidthAt(s, i).0 && WidthAt(t, j).1 - j == WidthAt(s, i).1 - i
  {
    AgreeAt(s, i, t, j, n, 0);
    if IsDigit(s[i]) {
      SameDigitRun(s, i, t, j, n);
      AgreeLess(s, i, t, j, n, DigitRun(s, i) - i);
    }
  }

  lemma SamePrecision(s: CString, i: nat, t: CString, j: nat, n: nat)
    requires Agree(s, i, t, j, n) && PrecisionAt(s, i).1 < i + n
    ensures PrecisionAt(t, j).0 == PrecisionAt(s, i).0 && PrecisionAt(t, j).1 - j == PrecisionAt(s, i).1 - i
  {
    AgreeAt(s, i, t, j, n, 0);
    if s[i] == '.' {
      AgreeAt(s, i, t, j, n, 1);
      SameWidth(s, i + 1, t, j + 1, n - 1);
    }
  }

  lemma SameLength(s: CString, i: nat, t: CString, j: nat, n: nat)
    requires Agree(s, i, t, j, n) && LengthAt(s, i).1 < i + n
    ensures LengthAt(t, j).0 == LengthAt(s, i).0 && LengthAt(t, j).1 - j == LengthAt(s, i).1 - i
  {
    AgreeAt(s, i, t, j, n, 0);
    if s[i] == 'l' || s[i] == 'h' {
      AgreeAt(s, i, t, j, n, 1);
    }
  }

  // A directive whose flags, width, precision and length end at f, w, p and l.
  function DirectiveOf(s: CString, i: nat, f: nat, w: nat, p: nat, l: nat): Item
    requires i < f <= |s| && w <= |s| && p <= |s| && l < |s|
  {
    Directive(s[i + 1..f], WidthAt(s, f).0, PrecisionAt(s, w).0, LengthAt(s, p).0, s[l])
  }

  lemma PartsOf(s: CString, i: nat) returns (f: nat, w: nat, p: nat, l: nat)
    requires i < |s| && s[i] == '%' && ItemAt(s, i).Some?
    ensures i < f <= w <= p <= l < |s| && FlagRun(s, i + 1) == f && WidthAt(s, f).1 == w
    ensures PrecisionAt(s, w).1 == p && LengthAt(s, p).1 == l
    ensures ItemAt(s, i) == Some((DirectiveOf(s, i, f, w, p, l), l + 1))
  {
    f := FlagRun(s, i + 1);
    w := WidthAt(s, f).1;
    p := PrecisionAt(s, w).1;
    l := LengthAt(s, p).1;
  }

  lemma ItemOfParts(s: CString, i: nat, f: nat, w: nat, p: nat, l: nat)
    requires i < f <= w <= p <= l < |s| && s[i] == '%' && FlagRun(s, i + 1) == f && WidthAt(s, f).1 == w
    requires PrecisionAt(s, w).1 == p && LengthAt(s, p).1 == l
    ensures ItemAt(s, i) == Some((DirectiveOf(s, i, f, w, p, l), l + 1))
  {
    hide FlagRun, WidthAt, PrecisionAt, LengthAt;
  }

  lemma SameFront(s: CString, i: nat, t: CString, j: nat, n: nat, f: nat, w: nat, f1: nat, w1: nat)
    requires Agree(s, i, t, j, n) && i < f <= w < i + n && f1 - j == f - i && w1 - j == w - i
    requires FlagRun(s, i + 1) == f && WidthAt(s, f).1 == w
    ensures FlagRun(t, j + 1) == f1 && WidthAt(t, f1) == (WidthAt(s, f).0, w1)
  {
    hide FlagRun, WidthAt, Agree;
    AgreeAt(s, i, t, j, n, 1);
    SameFlagRun(s, i + 1, t, j + 1, n - 1);
    AgreeAt(s, i, t, j, n, f - i);
    SameWidth(s, f, t, f1, n - (f - i));
  }

  lemma SameBack(s: CString, i: nat, t: CString, j: nat, n: nat, w: nat, p: nat, l: nat, w1: nat, p1: nat, l1: nat)
    requires Agree(s, i, t, j, n) && i < w <= p <= l < i + n
    requires w1 - j == w - i && p1 - j == p - i && l1 - j == l - i
    requires PrecisionAt(s, w).1 == p && LengthAt(s, p).1 == l
    ensures PrecisionAt(t, w1) == (PrecisionAt(s, w).0, p1) && LengthAt(t, p1) == (LengthAt(s, p).0, l1)
  {
    hide PrecisionAt, LengthAt, Agree;
    AgreeAt(s, i, t, j, n, w - i);
    SamePrecision(s, w, t, w1, n - (w - i));
    AgreeAt(s, i, t, j, n, p - i);
    SameLength(s, p, t, p1, n - (p - i));
  }

  lemma LiteralItem(s: CString, i: nat)
    requires i < |s| && s[i] != '%'
    ensures ItemAt(s, i) == Some((Literal(s[i]), i + 1))
  {
  }

  // An item is determined by the characters it is made of, wherever they stand.
  lemma SameItem(s: CString, i: nat, t: CString, j: nat, item: Item, n: nat)
    requires i < |s| && j < |t| && n > 0 && Agree(s, i, t, j, n) && ItemAt(s, i) == Some((item, i + n))
    ensures ItemAt(t, j) == Some((item, j + n))
  {
    hide FlagRun, WidthAt, PrecisionAt, LengthAt, Agree, ItemAt;
    AgreeAt(s, i, t, j, n, 0);
    if s[i] != '%' {
      LiteralItem(s, i);
      LiteralItem(t, j);
    } else {
      var f, w, p, l := PartsOf(s, i);
      var f1, w1, p1, l1 := f - i + j, w - i + j, p - i + j, l - i + j;
      SameFront(s, i, t, j, n, f, w, f1, w1);
      SameBack(s, i, t, j, n, w, p, l, w1, p1, l1);
      AgreeAt(s, i, t, j, n, l - i);
      AgreeAt(s, i, t, j, n, 1);
      AgreeLess(s, i + 1, t, j + 1, n - 1, f - (i + 1));
      ItemOfParts(t, j, f1, w1, p1, l1);
    }
  }

  // ---------- Parsing and rendering two formats ----------

  lemma ParseSteps(fmt: CString, i: nat) returns (item: Item, next: nat)
    requires i < |fmt| && Parse(fmt, i).Some?
    ensures i < next <= |fmt| && ItemAt(fmt, i) == Some((item, next))
    ensures Parse(fmt, next).Some? && Parse(fmt, i).value == [item] + Parse(fmt, next).value
  {
    hide ItemAt;
    item, next := ItemAt(fmt, i).value.0, ItemAt(fmt, i).value.1;
  }

  lemma ParseWith(fmt: CString, i: nat, item: Item, next: nat)
    requires i < |fmt| && ItemAt(fmt, i) == Some((item, next)) && next <= |fmt| && Parse(fmt, next).Some?
    ensures Parse(fmt, i) == Some([item] + Parse(fmt, next).value)
  {
    hide ItemAt;
  }

  // Behind the first format stands the second.
  lemma {:induction false} ParseSecond(f: CString, g: CString, k: nat)
    requires k <= |g| && '\0' !in f + g && Parse(g, k).Some?
    ensures Parse(f + g, |f| + k) == Parse(g, k)
    decreases |g| - k
  {
    hide ItemAt;
    if k < |g| {
      var item, next := ParseSteps(g, k);
      assert (f + g)[|f| + k..|f| + next] == g[k..next];
      SameItem(g, k, f + g, |f| + k, item, next - k);
      ParseSecond(f, g, next);
      ParseWith(f + g, |f| + k, item, |f| + next);
    }
  }

  lemma {:induction false} ParseJoin(f: CString, g: CString, i: nat)
    requires i <= |f| && '\0' !in f + g && Parse(f, i).Some? && Parse(g, 0).Some?
    ensures Parse(f + g, i) == Some(Parse(f, i).value + Parse(g, 0).value)
    decreases |f| - i
  {
    hide ItemAt;
    if i < |f| {
      var item, next := ParseSteps(f, i);
      assert (f + g)[i..next] == f[i..next];
      SameItem(f, i, f + g, i, item, next - i);
      ParseJoin(f, g, next);
      ParseWith(f + g, i, item, next);
      assert [item] + Parse(f, next).value + Parse(g, 0).value == [item] + (Parse(f, next).value + Parse(g, 0).value);
    } else {
      ParseSecond(f, g, 0);
      assert [] + Parse(g, 0).value == Parse(g, 0).value;
    }
  }

  // The arguments that the items leave.
  function ArgsLeft(items: seq<Item>, args: seq<Arg>): seq<Arg>
    requires RenderItems(items, args).Some?
  {
    if items == [] then args else ArgsLeft(items[1..], RenderItem(items[0], args).value.1)
  }

  lemma MoreSetup(item: Item, a: seq<Arg>, b: seq<Arg>)
    requires item.Directive? && SetupOf(item, a).Some?
    ensures var s := SetupOf(item, a).value;
      SetupOf(item, a + b) == Some(Setup(s.f, s.width, s.prec, s.rest + b))
  {
    hide WithLength, FlagsOf;
    assert a != [] ==> (a + b)[0] == a[0] && (a + b)[1..] == a[1..] + b;
    var rest := WithWidth(FlagsOf(item.flags), item.width, a).value.2;
    assert rest != [] ==> (rest + b)[0] == rest[0] && (rest + b)[1..] == rest[1..] + b;
  }

  // Further arguments change nothing and are left over.
  lemma MoreArgs(item: Item, a: seq<Arg>, b: seq<Arg>)
    requires RenderItem(item, a).Some?
    ensures RenderItem(item, a + b) == Some((RenderItem(item, a).value.0, RenderItem(item, a).value.1 + b))
  {
    hide IntegerText, Aligned, Cut, IntegerOf, WithLength, FlagsOf;
    if item.Directive? {
      MoreSetup(item, a, b);
      var rest := SetupOf(item, a).value.rest;
      assert rest != [] ==> (rest + b)[0] == rest[0] && (rest + b)[1..] == rest[1..] + b;
    }
  }

  lemma NoItems(x: seq<Item>, a: seq<Arg>)
    requires x == []
    ensures RenderItems(x, a) == Some("") && ArgsLeft(x, a) == a
  {
  }

  lemma FirstItem(x: seq<Item>, a: seq<Arg>)
    requires x != [] && RenderItems(x, a).Some?
    ensures RenderItem(x[0], a).Some?
    ensures var (text, rest) := RenderItem(x[0], a).value;
      && RenderItems(x[1..], rest).Some? && RenderItems(x, a).value == text + RenderItems(x[1..], rest).value
      && ArgsLeft(x, a) == ArgsLeft(x[1..], rest)
  {
    hide RenderItem;
  }

  lemma FirstRendered(x: seq<Item>, a: seq<Arg>)
    requires x != [] && RenderItem(x[0], a).Some?
    requires RenderItems(x[1..], RenderItem(x[0], a).value.1).Some?
    ensures var (text, rest) := RenderItem(x[0], a).value;
      RenderItems(x, a) == Some(text + RenderItems(x[1..], rest).value)
  {
    hide RenderItem;
  }

  lemma {:induction false} RenderItemsJoin(x: seq<Item>, y: seq<Item>, a: seq<Arg>, b: seq<Arg>)
    requires RenderItems(x, a).Some? && RenderItems(y, ArgsLeft(x, a) + b).Some?
    ensures RenderItems(x + y, a + b) == Some(RenderItems(x, a).value + RenderItems(y, ArgsLeft(x, a) + b).value)
    decreases |x|
  {
    hide RenderItem, RenderItems, ArgsLeft;
    if x == [] {
      NoItems(x, a);
      assert x + y == y && "" + RenderItems(y, a + b).value == RenderItems(y, a + b).value;
    } else {
      FirstItem(x, a);
      MoreArgs(x[0], a, b);
      var (text, rest) := RenderItem(x[0], a).value;
      assert (x + y)[1..] == x[1..] + y && (x + y)[0] == x[0];
      RenderItemsJoin(x[1..], y, rest, b);
      FirstRendered(x + y, a + b);
      var more, last := RenderItems(x[1..], rest).value, RenderItems(y, ArgsLeft(x, a) + b).value;
      assert text + (more + last) == text + more + last;
    }
  }

  // Two formats in one print their two texts one after the other, when the first uses up its arguments.
  lemma RenderJoin(f: CString, g: CString, a: seq<Arg>, b: seq<Arg>)
    requires Render(f, 0, a).Some? && Render(g, 0, b).Some? && ArgsLeft(Parse(f, 0).value, a) == []
    ensures '\0' !in f + g
    ensures Render(f + g, 0, a + b) == Some(Render(f, 0, a).value + Render(g, 0, b).value)
  {
    hide Parse, RenderItems, ArgsLeft;
    var x, y := Parse(f, 0).value, Parse(g, 0).value;
    assert [] + b == b;
    ParseJoin(f, g, 0);
    RenderItemsJoin(x, y, a, b);
  }
}

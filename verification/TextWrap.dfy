/** SPTextWindow::Render: the loop that breaks a window's text into lines at blanks. */
module TextWrap {
  import opened Machine
  import opened Text

  const LINE: nat := 100      // the line buffer
  const GLYPH: nat := 6       // width of a character cell
  const ROW: nat := 8         // height of a text row
  const TITLE: nat := 20      // height of the title bar

  // A line and the number of blanks skipped after it.
  datatype Piece = Piece(line: string, gap: nat)

  datatype Row = Row(y: u32, line: string)

  predicate BlankFree(s: string, lo: int, hi: int) {
    forall i | 0 <= i < |s| && lo < i <= hi :: s[i] != ' '
  }

  // ---------- What a wrapped text is ----------

  // A line of n characters off the front of s. A rest shorter than the width is one line. Otherwise
  // the line ends before the last blank within the width, the first character aside, or fills the width. It
  // is empty only when the width is 0.
  predicate IsLine(s: string, m: nat, n: nat) {
    && s != "" && (m > 0 ==> n > 0) && n <= m && n <= |s|
    && if |s| < m then n == |s|
       else BlankFree(s, n, m) && (At(s, n) == ' ' || (n == m && BlankFree(s, 0, m)))
  }

  predicate IsGap(s: string, n: nat, gap: nat) {
    && n + gap <= |s| && (forall i | n <= i < n + gap :: s[i] == ' ') && At(s, n + gap) != ' '
  }

  predicate Wrapped(s: string, m: nat, ps: seq<Piece>)
    decreases |ps|
  {
    if ps == [] then s == ""
    else
      var n := |ps[0].line|;
      && IsLine(s, m, n) && IsGap(s, n, ps[0].gap) && ps[0].line == s[..n]
      && Wrapped(s[n + ps[0].gap..], m, ps[1..])
  }

  function Joined(ps: seq<Piece>): string {
    if ps == [] then "" else ps[0].line + Repeat(' ', ps[0].gap) + Joined(ps[1..])
  }

  // ---------- Laws of a wrapped text ----------

  lemma OneLineOnly(s: string, m: nat, n: nat, k: nat)
    requires |s| >= m && IsLine(s, m, n) && IsLine(s, m, k)
    ensures n >= k
  {
  }

  lemma OneLine(s: string, m: nat, n: nat, k: nat)
    requires IsLine(s, m, n) && IsLine(s, m, k)
    ensures n == k
  {
    if |s| >= m {
      OneLineOnly(s, m, n, k);
      OneLineOnly(s, m, k, n);
    }
  }

  lemma OneGapOnly(s: string, n: nat, g: nat, h: nat)
    requires IsGap(s, n, g) && IsGap(s, n, h)
    ensures g >= h
  {
    assert At(s, n + g) != ' ';
  }

  lemma OneGap(s: string, n: nat, g: nat, h: nat)
    requires IsGap(s, n, g) && IsGap(s, n, h)
    ensures g == h
  {
    OneGapOnly(s, n, g, h);
    OneGapOnly(s, n, h, g);
  }

  lemma PieceInFront(s: string, m: nat, ps: seq<Piece>)
    requires Wrapped(s, m, ps)
    ensures ps == [] <==> s == ""
    ensures ps != [] ==>
              var n, gap := |ps[0].line|, ps[0].gap;
              && n + gap <= |s| && IsLine(s, m, n) && IsGap(s, n, gap) && ps[0].line == s[..n]
              && Wrapped(s[n + gap..], m, ps[1..])
  {
  }

  // There is one way to wrap a text.
  lemma {:induction false} WrappedOnce(s: string, m: nat, ps: seq<Piece>, qs: seq<Piece>)
    requires Wrapped(s, m, ps) && Wrapped(s, m, qs)
    ensures ps == qs
    decreases |ps|
  {
    hide Wrapped, IsLine, IsGap;
    PieceInFront(s, m, ps);
    PieceInFront(s, m, qs);
    if ps != [] && qs != [] {
      OneLine(s, m, |ps[0].line|, |qs[0].line|);
      OneGap(s, |ps[0].line|, ps[0].gap, qs[0].gap);
      WrappedOnce(s[|ps[0].line| + ps[0].gap..], m, ps[1..], qs[1..]);
      assert ps == [ps[0]] + ps[1..] && qs == [qs[0]] + qs[1..];
    }
  }

  lemma NoPieces(s: string, m: nat)
    requires Wrapped(s, m, [])
    ensures s == ""
  {
  }

  lemma LineBounds(s: string, m: nat, n: nat)
    requires IsLine(s, m, n)
    ensures (m > 0 ==> n > 0) && n <= m && n <= |s|
  {
  }

  lemma GapIsBlanks(s: string, n: nat, g: nat)
    requires IsGap(s, n, g)
    ensures n + g <= |s| && s == s[..n] + Repeat(' ', g) + s[n + g..]
  {
    assert s[n..n + g] == Repeat(' ', g);
    hide Repeat;
    assert s == s[..n] + s[n..n + g] + s[n + g..];
  }

  // The first piece, the blanks after it, and the rest.
  lemma FirstPiece(s: string, m: nat, ps: seq<Piece>)
    requires Wrapped(s, m, ps) && ps != []
    ensures var n, g := |ps[0].line|, ps[0].gap;
      && (m > 0 ==> n > 0) && n <= m && n + g <= |s| && Wrapped(s[n + g..], m, ps[1..])
      && s == ps[0].line + Repeat(' ', g) + s[n + g..]
  {
    hide IsLine, IsGap, Repeat;
    LineBounds(s, m, |ps[0].line|);
    GapIsBlanks(s, |ps[0].line|, ps[0].gap);
  }

  // The text is its lines with the skipped blanks between them, and every line fits the width.
  lemma {:induction false} WrapRebuilds(s: string, m: nat, ps: seq<Piece>)
    requires Wrapped(s, m, ps)
    ensures Joined(ps) == s
    ensures forall i | 0 <= i < |ps| :: (m > 0 ==> |ps[i].line| > 0) && |ps[i].line| <= m
    decreases |ps|
  {
    hide Wrapped, Repeat;
    if ps == [] {
      NoPieces(s, m);
    } else {
      var n, g := |ps[0].line|, ps[0].gap;
      FirstPiece(s, m, ps);
      WrapRebuilds(s[n + g..], m, ps[1..]);
      assert forall i | 1 <= i < |ps| :: ps[i] == ps[1..][i - 1];
    }
  }

  // Every line but the first starts with a character that is not blank.
  lemma {:induction false} LaterLinesStartInk(s: string, m: nat, ps: seq<Piece>, i: nat)
    requires m > 0 && Wrapped(s, m, ps) && i < |ps| && (i == 0 ==> At(s, 0) != ' ')
    ensures |ps[i].line| > 0 && ps[i].line[0] != ' '
    decreases i
  {
    if i > 0 {
      var n, g := |ps[0].line|, ps[0].gap;
      assert At(s[n + g..], 0) == At(s, n + g);
      LaterLinesStartInk(s[n + g..], m, ps[1..], i - 1);
    }
  }

  predicate HoldsBlank(s: string, lo: nat, m: nat) {
    exists i | lo <= i <= lo + m && i < |s| :: s[i] == ' '
  }

  predicate BlankText(s: string) {
    forall i | 0 <= i < |s| :: s[i] == ' '
  }

  lemma BlanksWrap(s: string)
    requires BlankText(s)
    ensures exists ps :: Wrapped(s, 0, ps)
  {
    if s == "" {
      assert Wrapped(s, 0, []);
    } else {
      var ps := [Piece("", |s|)];
      assert s[|s|..] == "" && ps[1..] == [] && s[..0] == "";
      assert Wrapped(s[|s|..], 0, ps[1..]);
      assert Wrapped(s, 0, ps);
    }
  }

  lemma {:induction false} OnlyBlanksWrap(s: string, ps: seq<Piece>)
    requires Wrapped(s, 0, ps)
    ensures BlankText(s)
    decreases |ps|
  {
    if ps != [] {
      var g := ps[0].gap;
      assert g < |s| ==> s[g..][0] == At(s, g);
      OnlyBlanksWrap(s[g..], ps[1..]);
    }
  }

  // In a window less than a character wide only blanks are ever passed: a text of blanks can be wrapped,
  // and no other.
  lemma ZeroWidth(s: string)
    ensures (exists ps :: Wrapped(s, 0, ps)) <==> BlankText(s)
  {
    if BlankText(s) {
      BlanksWrap(s);
    }
    if ps :| Wrapped(s, 0, ps) {
      OnlyBlanksWrap(s, ps);
    }
  }

  // No word is longer than m: m + 1 characters in a row hold a blank.
  predicate WordsFit(s: string, m: nat) {
    forall i: nat | i + m < |s| :: HoldsBlank(s, i, m)
  }

  // A line breaks inside a word exactly when no blank lies after its first character up to the
  // character after the width.
  lemma SplitsWord(s: string, m: nat, n: nat)
    requires m > 0 && IsLine(s, m, n)
    ensures n < |s| && At(s, n) != ' ' <==> m < |s| && BlankFree(s, 0, m)
    ensures n < |s| && At(s, n) != ' ' ==> n == m
  {
    assert n < |s| ==> At(s, n) == s[n];
  }

  lemma NoBlank(s: string, m: nat)
    requires m < |s| && BlankFree(s, 0, m) && s[0] != ' '
    ensures !HoldsBlank(s, 0, m)
  {
  }

  // Every line but the last is followed by a blank.
  predicate BreaksAtBlanks(ps: seq<Piece>) {
    forall i | 0 <= i && i + 1 < |ps| :: ps[i].gap > 0
  }

  predicate EndsBlank(line: string) {
    line != "" && line[|line| - 1] == ' '
  }

  // No line break has a character that is not blank on both sides.
  predicate WordsWhole(ps: seq<Piece>) {
    forall i | 0 <= i && i + 1 < |ps| :: ps[i].gap > 0 || EndsBlank(ps[i].line)
  }

  lemma BreaksFrom(ps: seq<Piece>)
    requires ps != [] && BreaksAtBlanks(ps[1..])
    ensures BreaksAtBlanks(ps) <==> |ps| == 1 || ps[0].gap > 0
  {
    forall i | 0 < i && i + 1 < |ps| ensures ps[i].gap > 0 {
      assert ps[i] == ps[1..][i - 1];
    }
  }

  // What follows a line starts with a character that is not blank, and its words fit as well.
  lemma RestAfterLine(s: string, m: nat, ps: seq<Piece>)
    requires Wrapped(s, m, ps) && WordsFit(s, m) && ps != []
    ensures var rest := s[|ps[0].line| + ps[0].gap..];
      WordsFit(rest, m) && At(rest, 0) != ' ' && Wrapped(rest, m, ps[1..])
  {
    var from := |ps[0].line| + ps[0].gap;
    var rest := s[from..];
    assert At(rest, 0) == At(s, from);
    forall j: nat | j + m < |rest| ensures HoldsBlank(rest, j, m) {
      assert HoldsBlank(s, from + j, m);
      var b :| from + j <= b <= from + j + m && b < |s| && s[b] == ' ';
      assert rest[b - from] == ' ';
    }
  }

  // The first of several lines is followed by no blank exactly when there is none in reach.
  lemma FirstBreak(s: string, m: nat, ps: seq<Piece>)
    requires m > 0 && Wrapped(s, m, ps) && ps != []
    ensures |ps| > 1 && ps[0].gap == 0 <==> m < |s| && BlankFree(s, 0, m)
    ensures |ps| > 1 && ps[0].gap == 0 ==> |ps[0].line| == m && ps[0].line == s[..m]
  {
    var n, g := |ps[0].line|, ps[0].gap;
    SplitsWord(s, m, n);
    assert |ps| > 1 <==> s[n + g..] != "";
    assert At(s, n + g) != ' ';
    assert g > 0 ==> At(s, n) == ' ';
  }

  lemma {:induction false} WholeAfterInk(s: string, m: nat, ps: seq<Piece>)
    requires m > 0 && Wrapped(s, m, ps) && WordsFit(s, m) && At(s, 0) != ' '
    ensures BreaksAtBlanks(ps)
    decreases |ps|
  {
    if ps != [] {
      RestAfterLine(s, m, ps);
      WholeAfterInk(s[|ps[0].line| + ps[0].gap..], m, ps[1..]);
      if |ps| > 1 && ps[0].gap == 0 {
        FirstBreak(s, m, ps);
        NoBlank(s, m);
      }
      BreaksFrom(ps);
    }
  }

  // A line of one character that is followed by no blank, in a text whose words have one character.
  lemma OneCharacterLine(s: string, ps: seq<Piece>)
    requires 1 < |s| && ps != [] && ps[0].line == s[..1] && s[1] != ' ' && WordsFit(s, 1)
    requires BreaksAtBlanks(ps[1..])
    ensures WordsWhole(ps)
  {
    assert HoldsBlank(s, 0, 1);
    forall i | 0 < i && i + 1 < |ps| ensures ps[i].gap > 0 {
      assert ps[i] == ps[1..][i - 1];
    }
  }

  // When every word fits the width, each line but the last ends at a blank, unless the text is longer
  // than the width and has no blank in reach behind its first character. That breaks a word in two
  // unless the line is that first character alone.
  lemma WordsStayWhole(s: string, m: nat, ps: seq<Piece>)
    requires m > 0 && Wrapped(s, m, ps) && WordsFit(s, m)
    ensures BreaksAtBlanks(ps) <==> !(m < |s| && BlankFree(s, 0, m))
    ensures WordsWhole(ps) <==> !(1 < m < |s| && BlankFree(s, 0, m))
  {
    if ps != [] {
      RestAfterLine(s, m, ps);
      WholeAfterInk(s[|ps[0].line| + ps[0].gap..], m, ps[1..]);
      BreaksFrom(ps);
      FirstBreak(s, m, ps);
      if m < |s| && BlankFree(s, 0, m) {
        assert |ps| > 1 && ps[0].gap == 0 && ps[0].line == s[..m];
        assert m > 1 ==> s[m - 1] != ' ';
        if m == 1 {
          OneCharacterLine(s, ps);
        }
      }
    }
  }

  // An input that fails: a word of the window's width behind a blank is split.
  lemma LeadingBlankSplits()
    ensures WordsFit(" abcde fg", 5)
    ensures var ps := [Piece(" abcd", 0), Piece("e fg", 0)]; Wrapped(" abcde fg", 5, ps) && !WordsWhole(ps)
  {
    var s, ps := " abcde fg", [Piece(" abcd", 0), Piece("e fg", 0)];
    assert s[..5] == " abcd" && s[5..] == "e fg" && s[5..][..4] == "e fg" && s[5..][4..] == "";
    forall i: nat | i + 5 < |s| ensures HoldsBlank(s, i, 5) {
      assert s[0] == ' ' && s[6] == ' ';
    }
    assert Wrapped(s[5..], 5, [Piece("e fg", 0)]);
    assert ps[1..] == [Piece("e fg", 0)];
    assert ps[0].gap == 0 && !EndsBlank(ps[0].line);
  }

  // A line takes as many words as it can: the word behind the blanks that follow it, which ends at e, reaches past
  // the width, unless it ends the text just there.
  lemma NextWordDoesNotFit(s: string, m: nat, ps: seq<Piece>, e: nat)
    requires Wrapped(s, m, ps) && |ps| > 1
    requires |ps[0].line| + ps[0].gap < e <= |s| && (e < |s| ==> s[e] == ' ')
    ensures e > m || e == m == |s|
  {
    var n := |ps[0].line|;
    assert ps[1..] != [] && s[n + ps[0].gap..] != "";
    if e < |s| {
      assert At(s, e) == ' ';
    }
  }

  // The rest of a text is put on one line exactly when it is shorter than the width, or just as
  // long and without a blank after its first character.
  lemma RestOnOneLine(s: string, m: nat, n: nat)
    requires IsLine(s, m, n)
    ensures n == |s| <==> |s| < m || (|s| == m && BlankFree(s, 0, m))
  {
    if |s| == m && n == |s| {
      assert At(s, n) == '\0';
    }
    assert n < |s| ==> At(s, n) == s[n];
  }

  // An input that fails: "ab cd" fits a width of 5, and is broken all the same.
  lemma ExactFitBreaks()
    ensures Wrapped("ab cd", 5, [Piece("ab", 1), Piece("cd", 0)])
  {
    var s, ps := "ab cd", [Piece("ab", 1), Piece("cd", 0)];
    assert s[..2] == "ab" && s[3..] == "cd" && s[3..][..2] == "cd" && s[3..][2..] == "";
    assert ps[1..] == [Piece("cd", 0)] && ps[1..][1..] == [];
    assert Wrapped(s[3..][2..], 5, []);
    assert Wrapped(s[3..], 5, ps[1..]);
  }

  // ---------- The loop ----------

  // The end of the line that starts at start.
  method LineEnd(text: CString, start: nat, m: nat) returns (end: nat)
    requires start < |text|
    ensures start <= end <= start + m && end <= |text| && IsLine(text[start..], m, end - start)
  {
    end := start + m;
    if end > |text| {
      end := |text|;
    } else {
      var pos := end;
      while pos > start && At(text, pos) != ' '
        invariant start <= pos <= end && BlankFree(text[start..], pos - start, m)
      {
        assert pos < |text| ==> text[start..][pos - start] == text[pos];
        pos := pos - 1;
      }
      if pos > start {
        end := pos;
        assert At(text[start..], pos - start) == At(text, pos);
      }
    }
  }

  method SkipBlanks(text: CString, from: nat) returns (to: nat)
    requires from <= |text|
    ensures from <= to <= |text| && At(text, to) != ' '
    ensures forall i | from <= i < to :: text[i] == ' '
  {
    to := from;
    while At(text, to) == ' '
      invariant from <= to <= |text| && forall i | from <= i < to :: text[i] == ' '
      decreases |text| - to
    {
      to := to + 1;
    }
  }

  // memcpy of a line into the buffer, and the NUL after it.
  method CopyLine(line: array<char>, text: CString, start: nat, n: nat)
    requires start + n <= |text| && n < line.Length
    modifies line
    ensures line[..n] == text[start..start + n] && line[n] == '\0'
  {
    for i := 0 to n
      invariant line[..i] == text[start..start + i]
    {
      line[i] := text[start + i];
    }
    line[n] := '\0';
  }

  // The lines one below the other, from under the title bar on.
  predicate Drawn(rows: seq<Row>, y: u32, ps: seq<Piece>) {
    && |rows| == |ps|
    && forall i | 0 <= i < |rows| :: rows[i] == Row((y + 20 + 8 * i) % U32, ps[i].line)
  }

  // Pieces that wrap the text up to a position.
  ghost predicate WrappedUpTo(s: string, m: nat, ps: seq<Piece>, start: nat) {
    start <= |s| && forall qs :: Wrapped(s[start..], m, qs) ==> Wrapped(s, m, ps + qs)
  }

  lemma WrapStarts(s: string, m: nat)
    ensures WrappedUpTo(s, m, [], 0)
  {
    assert s[0..] == s && forall qs: seq<Piece> :: [] + qs == qs;
  }

  lemma WrapEnds(s: string, m: nat, ps: seq<Piece>, start: nat)
    requires WrappedUpTo(s, m, ps, start) && start == |s|
    ensures Wrapped(s, m, ps)
  {
    assert Wrapped(s[start..], m, []) && ps + [] == ps;
  }

  lemma OneMorePiece(s: string, m: nat, p: Piece, qs: seq<Piece>, start: nat, end: nat, next: nat)
    requires start <= end <= next <= |s| && start < |s| && At(s, next) != ' ' && p == Piece(s[start..end], next - end)
    requires IsLine(s[start..], m, end - start) && forall i | end <= i < next :: s[i] == ' '
    requires Wrapped(s[next..], m, qs)
    ensures Wrapped(s[start..], m, [p] + qs)
  {
    hide IsLine;
    var t := s[start..];
    assert ([p] + qs)[1..] == qs && t[..end - start] == p.line && t[next - start..] == s[next..];
    assert At(t, next - start) == At(s, next);
  }

  lemma WrapSteps(s: string, m: nat, ps: seq<Piece>, start: nat, end: nat, next: nat)
    requires WrappedUpTo(s, m, ps, start) && start <= end <= next <= |s| && At(s, next) != ' '
    requires IsLine(s[start..], m, end - start) && forall i | end <= i < next :: s[i] == ' '
    ensures WrappedUpTo(s, m, ps + [Piece(s[start..end], next - end)], next)
  {
    var p, t := Piece(s[start..end], next - end), s[start..];
    forall qs | Wrapped(s[next..], m, qs) ensures Wrapped(s, m, ps + [p] + qs) {
      OneMorePiece(s, m, p, qs, start, end, next);
      hide Wrapped;
      assert ps + ([p] + qs) == ps + [p] + qs;
    }
  }

  lemma OneRowOn(y: u32, n: nat)
    ensures ((y + TITLE + ROW * n) % U32 + ROW) % U32 == (y + TITLE + ROW * (n + 1)) % U32
  {
    assert y + TITLE + ROW * (n + 1) == y + TITLE + ROW * n + ROW;
  }

  // The rows that the window draws, top to bottom, are the lines of the wrapped text.
  method RenderText(text: CString, y: u32, w: u32) returns (rows: seq<Row>)
    requires w < 6 ==> BlankText(text)
    requires (w / 6 < LINE || |text| < LINE) && |text| + w / 6 < U32
    ensures exists ps :: Wrapped(text, w / 6, ps) && Drawn(rows, y, ps)
  {
    hide Wrapped, IsLine;
    ghost var ps: seq<Piece>;
    var m, height, start := w / GLYPH, (y + TITLE) % U32, 0;
    var line := new char[LINE];
    rows, ps := [], [];
    WrapStarts(text, m);
    while start < |text|
      invariant start <= |text| && WrappedUpTo(text, m, ps, start)
      invariant Drawn(rows, y, ps) && height == (y + TITLE + ROW * |rows|) % U32
      decreases |text| - start
    {
      var end := LineEnd(text, start, m);
      CopyLine(line, text, start, end - start);
      var next := SkipBlanks(text, end);
      assert m == 0 ==> text[start] == ' ';
      WrapSteps(text, m, ps, start, end, next);
      OneRowOn(y, |rows|);
      rows := rows + [Row(height, line[..end - start])];
      ps := ps + [Piece(text[start..end], next - end)];
      height := (height + ROW) % U32;
      start := next;
    }
    WrapEnds(text, m, ps, start);
  }
}

/** Whole runs of the console: how far it scrolls, what scrolling undoes, and how printed lines lie in rows. */
module ConsoleRuns {
  import opened Machine
  import opened Console

  function Run(t: Terminal, ops: seq<Op>): Terminal
    decreases |ops|
  {
    if ops == [] then t else Run(Step(t, ops[0]), ops[1..])
  }

  // Every print of the run keeps the cursor within the rows that the buffer has room for.
  ghost predicate StaysWithin(t: Terminal, ops: seq<Op>)
    decreases |ops|
  {
    ops != [] ==> Height(Step(t, ops[0]).text) <= MAX_ROWS && StaysWithin(Step(t, ops[0]), ops[1..])
  }

  // The window never leaves the buffer: at most 237 rows are scrolled off.
  lemma {:induction false} OffsetBounded(t: Terminal, ops: seq<Op>)
    requires t.offset <= MAX_ROWS - ROWS && Height(t.text) <= MAX_ROWS && StaysWithin(t, ops)
    ensures Run(t, ops).offset <= MAX_ROWS - ROWS
    decreases |ops|
  {
    if ops != [] {
      OffsetBounded(Step(t, ops[0]), ops[1..]);
    }
  }

  // scroll_down undoes scroll_up.
  lemma UpThenDown(t: Terminal)
    requires Step(t, Up) != t
    ensures Step(Step(t, Up), Down) == t
  {
  }

  // scroll_up undoes scroll_down exactly when the window did not reach past the last row of the text.
  lemma DownThenUp(t: Terminal)
    requires t.offset > 0
    ensures Step(Step(t, Down), Up) == t <==> ROWS + t.offset <= Height(t.text)
  {
  }

  // backspace takes back the character just typed exactly when the cursor then stands behind the prompt.
  lemma BackUndoesTyping(t: Terminal, c: u8, color: u8, margin: nat)
    requires c != NEWLINE
    ensures Step(Step(t, Print([c], color)), Back(margin)) == t <==> (|t.text| + 1) % 80 >= margin
  {
    assert Printed(t.text, [c]) == t.text + [c] by {
      assert [c][..0] == [];
      assert Printed(t.text, []) == t.text;
    }
    assert (t.text + [c])[..|t.text|] == t.text;
  }

  function Ups(k: nat): seq<Op> {
    seq(k, _ => Up)
  }

  // Repeated scroll_up stops with the row of the cursor in the window.
  lemma {:induction false} ScrollToEnd(t: Terminal, k: nat)
    ensures Run(t, Ups(k)) == Terminal(t.text, Max(t.offset, Min(t.offset + k, Height(t.text) - ROWS)))
    ensures k >= Height(t.text) ==> Height(t.text) - 1 - Run(t, Ups(k)).offset < ROWS
    decreases k
  {
    if k > 0 {
      assert Ups(k)[1..] == Ups(k - 1);
      ScrollToEnd(Step(t, Up), k - 1);
    }
  }

  // ---------- Printing ----------

  lemma {:induction false} PrintedInParts(text: seq<u8>, s: seq<u8>, r: seq<u8>)
    ensures Printed(text, s + r) == Printed(Printed(text, s), r)
    decreases |r|
  {
    if r == [] {
      assert s + r == s;
    } else {
      assert (s + r)[..|s + r| - 1] == s + r[..|r| - 1];
      PrintedInParts(text, s, r[..|r| - 1]);
    }
  }

  // Printing adds to the text and changes nothing before the cursor.
  lemma {:induction false} PrintedKeeps(text: seq<u8>, str: seq<u8>)
    ensures text <= Printed(text, str)
    decreases |str|
  {
    if str != [] {
      PrintedKeeps(text, str[..|str| - 1]);
    }
  }

  lemma {:induction false} PrintedPlain(text: seq<u8>, line: seq<u8>)
    requires NEWLINE !in line
    ensures Printed(text, line) == text + line
    decreases |line|
  {
    if line == [] {
      assert text + line == text;
    } else {
      var k := |line| - 1;
      assert line[k] in line && forall c | c in line[..k] :: c in line;
      PrintedPlain(text, line[..k]);
      assert text + line == (text + line[..k]) + [line[k]];
    }
  }

  lemma PrintedSnoc(text: seq<u8>, s: seq<u8>, c: u8)
    ensures Printed(text, s + [c]) == Typed(Printed(text, s), c)
  {
    assert (s + [c])[..|s|] == s;
  }

  lemma RowArithmetic(a: nat, b: nat)
    requires a % COLS == 0
    ensures (a + b) % COLS == b % COLS && (a + b + (COLS - b % COLS)) % COLS == 0
  {
  }

  // A line printed at the start of a row takes whole rows: the line, then blanks.
  lemma PrintedLine(text: seq<u8>, line: seq<u8>)
    requires |text| % COLS == 0 && NEWLINE !in line
    ensures Printed(text, line + [NEWLINE]) == text + line + Blanks(COLS - |line| % COLS)
    ensures |Printed(text, line + [NEWLINE])| % COLS == 0
  {
    hide Printed;
    PrintedPlain(text, line);
    PrintedSnoc(text, line, NEWLINE);
    RowArithmetic(|text|, |line|);
  }

  function Lines(lines: seq<seq<u8>>): seq<u8> {
    if lines == [] then [] else Lines(lines[..|lines| - 1]) + (lines[|lines| - 1] + [NEWLINE])
  }

  lemma LastLine(lines: seq<seq<u8>>)
    requires lines != [] && forall line | line in lines :: |line| < COLS && NEWLINE !in line
    requires |Printed([], Lines(lines[..|lines| - 1]))| % COLS == 0
    ensures var last := lines[|lines| - 1];
      Printed([], Lines(lines)) == Printed([], Lines(lines[..|lines| - 1])) + last + Blanks(COLS - |last|)
  {
    hide Printed;
    var front, last := lines[..|lines| - 1], lines[|lines| - 1];
    assert last in lines;
    PrintedInParts([], Lines(front), last + [NEWLINE]);
    PrintedLine(Printed([], Lines(front)), last);
  }

  lemma NoLines()
    ensures Printed([], Lines([])) == []
  {
  }

  // A line and its blanks behind n rows: the rows before are as they were, row n holds the line.
  lemma RowAppended(front: seq<u8>, last: seq<u8>, n: nat, k: nat, col: nat)
    requires |front| == COLS * n && |last| < COLS
    ensures var r := front + last + Blanks(COLS - |last|);
      && |r| == COLS * (n + 1)
      && (k <= n && col < COLS ==>
            r[COLS * k + col] == if k < n then front[COLS * k + col] else if col < |last| then last[col] else BLANK)
  {
  }

  // Lines shorter than a row, printed on an empty terminal: row k holds line k, then blanks.
  lemma {:induction false} RowHoldsLine(lines: seq<seq<u8>>, k: nat, col: nat)
    requires forall line | line in lines :: |line| < COLS && NEWLINE !in line
    ensures |Printed([], Lines(lines))| == COLS * |lines|
    ensures k < |lines| && col < COLS ==>
              Printed([], Lines(lines))[COLS * k + col] == if col < |lines[k]| then lines[k][col] else BLANK
    decreases |lines|
  {
    hide Printed, Lines, Blanks;
    if lines == [] {
      NoLines();
    } else {
      var n := |lines| - 1;
      assert lines[n] in lines && forall line | line in lines[..n] :: line in lines;
      RowHoldsLine(lines[..n], k, col);
      LastLine(lines);
      assert k < n ==> lines[..n][k] == lines[k];
      var front, last := Printed([], Lines(lines[..n])), lines[n];
      RowAppended(front, last, n, k, col);
    }
  }

  // What the window then shows: row r has line r + offset.
  lemma WindowShowsLines(lines: seq<seq<u8>>, offset: nat, row: nat, col: nat)
    requires forall line | line in lines :: |line| < COLS && NEWLINE !in line
    requires col < COLS
    ensures var t := Terminal(Printed([], Lines(lines)), offset);
      Shown(t, row, col) ==
      if row + offset < |lines| && col < |lines[row + offset]| then lines[row + offset][col] else BLANK
  {
    if lines != [] {
      RowHoldsLine(lines, if row + offset < |lines| then row + offset else 0, col);
    }
  }

  // ---------- The cursor and the window ----------

  function CursorRow(t: Terminal): nat {
    Height(t.text) - 1
  }

  predicate CursorShown(t: Terminal) {
    t.offset <= CursorRow(t) < t.offset + ROWS
  }

  // The cursor's row lies above the window: no scroll_up brings it back.
  predicate Stranded(t: Terminal) {
    CursorRow(t) < t.offset
  }

  // The operations that strand a cursor: clearing a scrolled screen, and taking back the first character of
  // a row that is the window's first, which takes a prompt without width.
  predicate Strands(t: Terminal, op: Op) {
    match op
    case Clear => t.offset > 0
    case Back(margin) => margin == 0 && t.text != [] && |t.text| % COLS == 0 && t.offset == CursorRow(t)
    case _ => false
  }

  lemma StepStrands(t: Terminal, op: Op)
    requires !Stranded(t)
    ensures Stranded(Step(t, op)) <==> Strands(t, op)
  {
    if op.Print? {
      PrintedKeeps(t.text, op.str);
    }
  }

  // Stranded in no state of the run, and by no step of it.
  ghost predicate NeverStranded(t: Terminal, ops: seq<Op>)
    decreases |ops|
  {
    !Stranded(t) && (ops == [] || NeverStranded(Step(t, ops[0]), ops[1..]))
  }

  ghost predicate NoneStrands(t: Terminal, ops: seq<Op>)
    decreases |ops|
  {
    ops == [] || (!Strands(t, ops[0]) && NoneStrands(Step(t, ops[0]), ops[1..]))
  }

  // Over every run from a cursor that is not stranded.
  lemma {:induction false} RunStrands(t: Terminal, ops: seq<Op>)
    requires !Stranded(t)
    ensures NeverStranded(t, ops) <==> NoneStrands(t, ops)
    decreases |ops|
  {
    if ops != [] {
      StepStrands(t, ops[0]);
      if !Strands(t, ops[0]) {
        RunStrands(Step(t, ops[0]), ops[1..]);
      }
    }
  }

  // Scrolling up brings the cursor's row into the window exactly when it is not above it.
  lemma UpsShowCursor(t: Terminal, k: nat)
    requires k >= Height(t.text)
    ensures CursorShown(Run(t, Ups(k))) <==> !Stranded(t)
  {
    ScrollToEnd(t, k);
  }

  function Downs(k: nat): seq<Op> {
    seq(k, _ => Down)
  }

  // Scrolling down ends at the top, where the cursor's row is in the window as long as it is one of the first 25.
  lemma {:induction false} ScrollToTop(t: Terminal, k: nat)
    ensures Run(t, Downs(k)) == Terminal(t.text, Max(t.offset - k, 0))
    ensures k >= t.offset ==> (CursorShown(Run(t, Downs(k))) <==> Height(t.text) <= ROWS)
    decreases k
  {
    if k > 0 {
      assert Downs(k)[1..] == Downs(k - 1);
      ScrollToTop(Step(t, Down), k - 1);
    }
  }

  // A window with a stranded cursor shows nothing ...
  lemma StrandedShowsNothing(t: Terminal, row: nat, col: nat)
    requires Stranded(t)
    ensures Shown(t, row, col) == BLANK
  {
  }

  // ... and nothing of what is printed after a scrolled screen is cleared, until that fills the rows scrolled off.
  lemma ClearedThenPrinted(t: Terminal, str: seq<u8>, color: u8, row: nat, col: nat)
    requires Height(Printed([], str)) <= t.offset
    ensures Shown(Run(t, [Clear, Print(str, color)]), row, col) == BLANK
  {
    var ops := [Clear, Print(str, color)];
    assert ops[1..] == [Print(str, color)] && ops[1..][1..] == [];
    var u := Terminal(Printed([], str), t.offset);
    assert Run(t, ops) == Run(Step(t, Clear), ops[1..]) == Run(u, []) == u;
    StrandedShowsNothing(u, row, col);
  }
}

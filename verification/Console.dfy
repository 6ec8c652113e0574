/** The scrollback console: scrolling moves the text inside one buffer under a window that stays put. */
module Console {
  import opened Machine

  const COLS: nat := 80
  const ROWS: nat := 25
  const LINE: nat := 160            // bytes of a row: a character and an attribute per cell
  const BUFFER_SIZE: nat := 80000
  const DISPLAY_OFFSET: nat := 38000
  const MAX_ROWS: nat := 262        // rows that fit behind the window's start

  const BLANK: u8 := 32
  const NEWLINE: u8 := 10

  // ---------- The terminal as a value: text up to the cursor, and rows scrolled off the top ----------

  datatype Terminal = Terminal(text: seq<u8>, offset: nat)

  function Height(text: seq<u8>): nat {
    |text| / COLS + 1
  }

  function Blanks(n: nat): (s: seq<u8>)
    ensures |s| == n && forall i | 0 <= i < n :: s[i] == BLANK
  {
    seq(n, _ => BLANK)
  }

  // A newline fills the row with blanks.
  function Typed(text: seq<u8>, c: u8): seq<u8> {
    if c == NEWLINE then text + Blanks(COLS - |text| % COLS) else text + [c]
  }

  function Printed(text: seq<u8>, str: seq<u8>): seq<u8> {
    if str == [] then text else Typed(Printed(text, str[..|str| - 1]), str[|str| - 1])
  }

  datatype Op = Print(str: seq<u8>, color: u8) | Clear | Up | Down | Reset | Back(margin: nat)

  function Step(t: Terminal, op: Op): Terminal {
    match op
    case Print(str, _) => Terminal(Printed(t.text, str), t.offset)
    case Clear => Terminal([], t.offset)
    case Up => if Height(t.text) > ROWS + t.offset then Terminal(t.text, t.offset + 1) else t
    case Down => if t.offset > 0 then Terminal(t.text, t.offset - 1) else t
    case Reset => Terminal([], 0)
    case Back(margin) =>
      if |t.text| % COLS < margin || t.text == [] then t else Terminal(t.text[..|t.text| - 1], t.offset)
  }

  // What window cell (row, col) shows: the text, `offset` rows further down.
  function Shown(t: Terminal, row: nat, col: nat): u8 {
    var at := (row + t.offset) * COLS + col;
    if at < |t.text| then t.text[at] else BLANK
  }

  // An unwritten cell holds NUL and is shown blank.
  function Displayed(c: u8): u8 {
    if c == 0 then BLANK else c
  }

  // The n characters in the cells from address pos on.
  function TextAt(m: seq<u8>, pos: nat, n: nat): (t: seq<u8>)
    requires pos + 2 * n <= |m| + 1
    ensures |t| == n && forall i | 0 <= i < n :: t[i] == Displayed(m[pos + 2 * i])
  {
    seq(n, i requires 0 <= i < n => Displayed(m[pos + 2 * i]))
  }

  // Every character cell outside [pos, pos + last) is blank.
  ghost predicate BlankElsewhere(m: seq<u8>, pos: nat, last: nat) {
    forall a | 0 <= a < |m| && a % 2 == 0 && !(pos <= a < pos + last) :: Displayed(m[a]) == BLANK
  }

  // Writing the cell under the cursor appends a character.
  lemma CellAppends(m: seq<u8>, m1: seq<u8>, pos: nat, n: nat, c: u8, attribute: u8)
    requires pos % 2 == 0 && pos + 2 * n + 2 <= |m|
    requires m1 == m[pos + 2 * n := c][pos + 2 * n + 1 := attribute]
    requires BlankElsewhere(m, pos, 2 * n)
    ensures TextAt(m1, pos, n + 1) == TextAt(m, pos, n) + [Displayed(c)] && BlankElsewhere(m1, pos, 2 * n + 2)
  {
  }

  // The character cells of [pos, pos + i) are NUL, the rest is as it was.
  ghost predicate Erased(m: seq<u8>, m1: seq<u8>, pos: nat, i: nat) {
    && |m1| == |m|
    && forall a | 0 <= a < |m| :: m1[a] == if pos <= a < pos + i && a % 2 == 0 then 0 else m[a]
  }

  lemma NoneErased(m: seq<u8>, pos: nat)
    ensures Erased(m, m, pos, 0)
  {
  }

  lemma NothingTyped(m: seq<u8>, pos: nat)
    requires pos <= |m|
    ensures TextAt(m, pos, 0) == []
  {
  }

  lemma EraseStep(m: seq<u8>, r: seq<u8>, pos: nat, k: nat)
    requires pos % 2 == 0 && pos + 2 * k < |m| && Erased(m, r, pos, 2 * k)
    ensures Erased(m, r[pos + 2 * k := 0], pos, 2 * k + 2)
  {
    var r1 := r[pos + 2 * k := 0];
    forall a | 0 <= a < |m| ensures r1[a] == if pos <= a < pos + (2 * k + 2) && a % 2 == 0 then 0 else m[a] {
      assert a == pos + 2 * k || a == pos + 2 * k + 1 || (pos <= a < pos + 2 * k <==> pos <= a < pos + (2 * k + 2));
    }
  }

  lemma EraseText(m: seq<u8>, m1: seq<u8>, pos: nat, last: nat, i: nat)
    requires last <= i && BlankElsewhere(m, pos, last) && Erased(m, m1, pos, i)
    ensures BlankElsewhere(m1, pos, 0)
  {
  }

  // Erasing the last cell of the text drops its last character.
  lemma CellErased(m: seq<u8>, m1: seq<u8>, pos: nat, n: nat)
    requires pos % 2 == 0 && 0 < n && pos + 2 * n <= |m| && m1 == m[pos + 2 * n - 2 := 0]
    requires BlankElsewhere(m, pos, 2 * n)
    ensures TextAt(m1, pos, n - 1) == TextAt(m, pos, n)[..n - 1] && BlankElsewhere(m1, pos, 2 * (n - 1))
  {
  }

  lemma BlankErased(m: seq<u8>, m1: seq<u8>, pos: nat, at: nat)
    requires pos <= |m| && at < |m| && m1 == m[at := 0] && BlankElsewhere(m, pos, 0)
    ensures TextAt(m1, pos, 0) == [] && BlankElsewhere(m1, pos, 0)
  {
  }

  // Moving the cursor on over blank cells appends blanks.
  lemma CursorAppends(m: seq<u8>, pos: nat, n: nat, k: nat)
    requires pos % 2 == 0 && pos + 2 * (n + k) <= |m| && BlankElsewhere(m, pos, 2 * n)
    ensures TextAt(m, pos, n + k) == TextAt(m, pos, n) + Blanks(k) && BlankElsewhere(m, pos, 2 * (n + k))
  {
  }

  // ---------- Moves inside the buffer ----------

  // A move of whole rows is refused when it would leave the buffer.
  predicate Refused(source: int, destination: int, depth: nat) {
    source < 0 || destination < 0 || source + depth * LINE > BUFFER_SIZE || destination + depth * LINE > BUFFER_SIZE
  }

  // Half-way through a move one byte up, which runs from the end down to cell offset i: every character is
  // written twice, over its attribute and over the next character.
  function Smeared(m: seq<u8>, source: nat, size: nat, i: nat, a: nat): u8
    requires i <= size && source + size < |m| && a < |m|
  {
    if source + i < a <= source + size then m[source + i + (a - source - i - 1) / 2 * 2]
    else if a == source + i && i < size then BLANK
    else m[a]
  }

  // Half-way through a move to higher addresses, which runs from the end down to cell offset i.
  function Lifted(m: seq<u8>, source: nat, destination: nat, size: nat, i: nat, a: nat): u8
    requires i <= size && source < destination && destination + size <= |m| && a < |m|
  {
    if destination == source + 1 then Smeared(m, source, size, i, a)
    else if destination + i <= a < destination + size then m[source + (a - destination)]
    else if source + i <= a < source + size && (a - source) % 2 == 0 then BLANK
    else m[a]
  }

  // What a move leaves behind in a cell.
  function Emptied(source: nat, attribute: u8, a: int): u8 {
    if (a - source) % 2 == 0 then BLANK else attribute
  }

  // Half-way through a move one byte down, from the front up to cell offset i: characters replace attributes.
  function Squeezed(m: seq<u8>, source: nat, attribute: u8, i: nat, a: nat): u8
    requires source + i <= |m| && a < |m|
  {
    if i > 0 && source - 1 <= a < source + i - 1 && (a - source) % 2 != 0 then m[a + 1]
    else if source <= a < source + i then Emptied(source, attribute, a)
    else m[a]
  }

  // Half-way through a move to lower addresses or onto itself, from the front up to cell offset i.
  function Sunk(m: seq<u8>, source: nat, destination: nat, attribute: u8, i: nat, a: nat): u8
    requires destination <= source && source + i <= |m| && a < |m|
  {
    if destination + 1 == source then Squeezed(m, source, attribute, i, a)
    else if destination < source && destination <= a < destination + i then m[source + (a - destination)]
    else if source <= a < source + i then Emptied(source, attribute, a)
    else m[a]
  }

  // The byte at a after `size` bytes are moved. With source and destination a cell or more apart: what was moved
  // there, else blanks in the cells left behind, else what was there. Attributes left behind are reset only by
  // a move towards lower addresses.
  function Moved(m: seq<u8>, source: nat, destination: nat, size: nat, attribute: u8, a: nat): u8
    requires source + size <= |m| && destination + size <= |m| && a < |m|
  {
    if source < destination then Lifted(m, source, destination, size, 0, a)
    else Sunk(m, source, destination, attribute, size, a)
  }

  // A move of at least a cell brings every byte to its new place, and leaves characters only there.
  lemma MovedApart(m: seq<u8>, source: nat, destination: nat, size: nat, attribute: u8, a: nat)
    requires source + size <= |m| && destination + size <= |m| && a < |m| && Magnitude(source - destination) >= 2
    ensures var b := Moved(m, source, destination, size, attribute, a);
      if destination <= a < destination + size then b == m[source + (a - destination)]
      else if source <= a < source + size then (a - source) % 2 == 0 ==> b == BLANK
      else b == m[a]
  {
  }

  lemma LiftStep(m: seq<u8>, r: seq<u8>, r1: seq<u8>, source: nat, destination: nat, size: nat, i: nat)
    requires i + 2 <= size && i % 2 == 0 && source < destination && destination + size <= |m| && |r| == |m|
    requires forall a | 0 <= a < |m| :: r[a] == Lifted(m, source, destination, size, i + 2, a)
    requires var r2 := r[destination + i := r[source + i]];
      r1 == r2[destination + i + 1 := r2[source + i + 1]][source + i := BLANK]
    ensures forall a | 0 <= a < |m| :: r1[a] == Lifted(m, source, destination, size, i, a)
  {
    assert r[source + i] == m[source + i] && r[source + i + 1] == m[source + i + 1];
    forall a | 0 <= a < |m| ensures r1[a] == Lifted(m, source, destination, size, i, a) {
      assert r[a] == Lifted(m, source, destination, size, i + 2, a);
    }
  }

  lemma SinkStep(m: seq<u8>, r: seq<u8>, r1: seq<u8>, source: nat, destination: nat, size: nat, attribute: u8, i: nat)
    requires i + 2 <= size && i % 2 == 0 && destination <= source && source + size <= |m| && |r| == |m|
    requires forall a | 0 <= a < |m| :: r[a] == Sunk(m, source, destination, attribute, i, a)
    requires var r2 := r[destination + i := r[source + i]];
      r1 == r2[destination + i + 1 := r2[source + i + 1]][source + i := BLANK][source + i + 1 := attribute]
    ensures forall a | 0 <= a < |m| :: r1[a] == Sunk(m, source, destination, attribute, i + 2, a)
  {
    assert r[source + i] == m[source + i] || destination + 1 == source;
    forall a | 0 <= a < |m| ensures r1[a] == Sunk(m, source, destination, attribute, i + 2, a) {
      assert r[a] == Sunk(m, source, destination, attribute, i, a);
    }
  }

  lemma TextMoves(m: seq<u8>, m1: seq<u8>, pos: nat, pos1: nat, n: nat, size: nat, attribute: u8)
    requires pos + size <= |m| && pos1 + size <= |m| && 2 * n <= size && |m1| == |m| && Magnitude(pos - pos1) >= 2
    requires forall a | 0 <= a < |m| :: m1[a] == Moved(m, pos, pos1, size, attribute, a)
    ensures TextAt(m1, pos1, n) == TextAt(m, pos, n)
    ensures m1[pos1..pos1 + size] == m[pos..pos + size]
  {
    hide Moved;
    forall a | pos1 <= a < pos1 + size ensures m1[a] == m[pos + (a - pos1)] {
      MovedApart(m, pos, pos1, size, attribute, a);
    }
  }

  lemma BlankCell(m: seq<u8>, pos: nat, last: nat, a: nat)
    requires BlankElsewhere(m, pos, last) && a < |m| && a % 2 == 0 && !(pos <= a < pos + last)
    ensures Displayed(m[a]) == BLANK
  {
  }

  lemma BlankMoved(m: seq<u8>, pos: nat, pos1: nat, last: nat, size: nat, attribute: u8, a: nat)
    requires pos % 2 == 0 && pos1 % 2 == 0 && last <= size && Magnitude(pos - pos1) >= 2
    requires pos + size <= |m| && pos1 + size <= |m| && BlankElsewhere(m, pos, last)
    requires a < |m| && a % 2 == 0 && !(pos1 <= a < pos1 + last)
    ensures Displayed(Moved(m, pos, pos1, size, attribute, a)) == BLANK
  {
    hide Moved, BlankElsewhere;
    MovedApart(m, pos, pos1, size, attribute, a);
    if pos1 <= a < pos1 + size {
      BlankCell(m, pos, last, pos + (a - pos1));
    } else if !(pos <= a < pos + size) {
      BlankCell(m, pos, last, a);
    }
  }

  lemma BlanksMove(m: seq<u8>, m1: seq<u8>, pos: nat, pos1: nat, last: nat, size: nat, attribute: u8)
    requires pos % 2 == 0 && pos1 % 2 == 0 && last <= size && Magnitude(pos - pos1) >= 2
    requires pos + size <= |m| && pos1 + size <= |m| && |m1| == |m| && BlankElsewhere(m, pos, last)
    requires forall a | 0 <= a < |m| :: m1[a] == Moved(m, pos, pos1, size, attribute, a)
    ensures BlankElsewhere(m1, pos1, last)
  {
    hide Moved;
    forall a | 0 <= a < |m| && a % 2 == 0 && !(pos1 <= a < pos1 + last) ensures Displayed(m1[a]) == BLANK {
      BlankMoved(m, pos, pos1, last, size, attribute, a);
    }
  }

  // Moving the rows that hold the text moves the text, and leaves only blanks behind.
  lemma RowsMove(m: seq<u8>, m1: seq<u8>, pos: nat, pos1: nat, n: nat, depth: nat, attribute: u8)
    requires pos % 2 == 0 && pos1 % 2 == 0 && pos != pos1 && 2 * n <= depth * LINE && |m1| == |m|
    requires pos + depth * LINE <= |m| && pos1 + depth * LINE <= |m| && BlankElsewhere(m, pos, 2 * n)
    requires forall a | 0 <= a < |m| :: m1[a] == Moved(m, pos, pos1, depth * LINE, attribute, a)
    ensures TextAt(m1, pos1, n) == TextAt(m, pos, n) && BlankElsewhere(m1, pos1, 2 * n)
    ensures m1[pos1..pos1 + depth * LINE] == m[pos..pos + depth * LINE]
  {
    hide TextAt, BlankElsewhere, Moved;
    TextMoves(m, m1, pos, pos1, n, depth * LINE, attribute);
    BlanksMove(m, m1, pos, pos1, 2 * n, depth * LINE, attribute);
  }

  lemma TypedCells(text: seq<u8>, c: u8)
    ensures c == NEWLINE ==> Typed(text, c) == text + Blanks(COLS - |text| % COLS)
    ensures c != NEWLINE && c != 0 ==> Typed(text, c) == text + [Displayed(c)]
  {
  }

  lemma NewlineCells(n: nat)
    ensures (2 * n / LINE + 1) * LINE == 2 * (n + (COLS - n % COLS))
  {
  }

  lemma {:induction false} PrintedGrows(text: seq<u8>, str: seq<u8>, k: nat)
    requires k <= |str|
    ensures |text| <= |Printed(text, str[..k])| <= |Printed(text, str)|
    decreases |str|
  {
    if k < |str| {
      PrintedGrows(text, str[..|str| - 1], k);
      assert str[..|str| - 1][..k] == str[..k];
    } else {
      assert str[..k] == str;
      if str != [] {
        PrintedGrows(text, str[..|str| - 1], 0);
        assert str[..|str| - 1][..0] == [];
      }
    }
  }

  // ---------- What printing writes ----------

  // The cell that character i of a printed string takes: the one behind the text printed before it.
  function CellOf(pos: nat, text: seq<u8>, str: seq<u8>, i: nat): nat
    requires i <= |str|
  {
    pos + 2 * |Printed(text, str[..i])|
  }

  ghost predicate InCells(pos: nat, text: seq<u8>, str: seq<u8>, a: nat) {
    exists i | 0 <= i < |str| && str[i] != NEWLINE :: CellOf(pos, text, str, i) <= a <= CellOf(pos, text, str, i) + 1
  }

  // Every character of the string that is no newline is in its cell, in the foreground asked for and on the
  // background that was there. No other byte has changed.
  ghost predicate Painted(m: seq<u8>, r: seq<u8>, pos: nat, text: seq<u8>, str: seq<u8>, color: u8) {
    && |r| == |m|
    && (forall i | 0 <= i < |str| && str[i] != NEWLINE ::
          var a := CellOf(pos, text, str, i);
          a + 1 < |m| && r[a] == str[i] && r[a + 1] == color % 16 + m[a + 1] / 16 * 16)
    && (forall a | 0 <= a < |m| && !InCells(pos, text, str, a) :: r[a] == m[a])
  }

  lemma NothingPainted(m: seq<u8>, pos: nat, text: seq<u8>, color: u8)
    ensures Painted(m, m, pos, text, [], color)
  {
  }

  lemma CellsBehind(pos: nat, text: seq<u8>, str: seq<u8>, i: nat)
    requires i < |str|
    ensures CellOf(pos, text, str, i) + 2 <= pos + 2 * |Printed(text, str)|
  {
    PrintedGrows(text, str, i + 1);
    assert str[..i + 1][..i] == str[..i];
  }

  lemma SameCell(pos: nat, text: seq<u8>, str: seq<u8>, c: u8, i: nat)
    requires i <= |str|
    ensures CellOf(pos, text, str + [c], i) == CellOf(pos, text, str, i)
    ensures i < |str| ==> (str + [c])[i] == str[i]
  {
    assert (str + [c])[..i] == str[..i];
  }

  lemma CellsGrow(pos: nat, text: seq<u8>, str: seq<u8>, c: u8, a: nat)
    ensures var p := CellOf(pos, text, str, |str|);
      InCells(pos, text, str + [c], a) <==> InCells(pos, text, str, a) || (c != NEWLINE && p <= a <= p + 1)
  {
    hide CellOf;
    var s := str + [c];
    SameCell(pos, text, str, c, |str|);
    if InCells(pos, text, s, a) {
      var i :| 0 <= i < |s| && s[i] != NEWLINE && CellOf(pos, text, s, i) <= a <= CellOf(pos, text, s, i) + 1;
      SameCell(pos, text, str, c, i);
    }
    if InCells(pos, text, str, a) {
      var i :| 0 <= i < |str| && str[i] != NEWLINE && CellOf(pos, text, str, i) <= a <= CellOf(pos, text, str, i) + 1;
      SameCell(pos, text, str, c, i);
      assert s[i] != NEWLINE;
    }
    if c != NEWLINE && CellOf(pos, text, str, |str|) <= a <= CellOf(pos, text, str, |str|) + 1 {
      assert s[|str|] != NEWLINE;
    }
  }

  lemma NotYetPainted(pos: nat, text: seq<u8>, str: seq<u8>, a: nat)
    requires a >= CellOf(pos, text, str, |str|)
    ensures !InCells(pos, text, str, a)
  {
    assert str[..|str|] == str;
    forall i | 0 <= i < |str| ensures CellOf(pos, text, str, i) + 1 < a {
      CellsBehind(pos, text, str, i);
    }
  }

  lemma CellBefore(pos: nat, text: seq<u8>, str: seq<u8>, i: nat)
    requires i < |str|
    ensures CellOf(pos, text, str, i) + 2 <= CellOf(pos, text, str, |str|)
  {
    CellsBehind(pos, text, str, i);
    assert str[..|str|] == str;
  }

  lemma PaintStep(m: seq<u8>, r: seq<u8>, r1: seq<u8>, pos: nat, text: seq<u8>, str: seq<u8>, color: u8, c: u8)
    requires Painted(m, r, pos, text, str, color)
    requires var p := CellOf(pos, text, str, |str|);
      if c == NEWLINE then r1 == r
      else p + 1 < |m| && r1 == r[p := c][p + 1 := color % 16 + r[p + 1] / 16 * 16]
    ensures Painted(m, r1, pos, text, str + [c], color)
  {
    hide CellOf, InCells;
    var s, p := str + [c], CellOf(pos, text, str, |str|);
    NotYetPainted(pos, text, str, p);
    NotYetPainted(pos, text, str, p + 1);
    forall i | 0 <= i < |s| && s[i] != NEWLINE
      ensures var a := CellOf(pos, text, s, i);
        a + 1 < |m| && r1[a] == s[i] && r1[a + 1] == color % 16 + m[a + 1] / 16 * 16
    {
      SameCell(pos, text, str, c, i);
      if i < |str| {
        CellBefore(pos, text, str, i);
      }
    }
    forall a | 0 <= a < |m| && !InCells(pos, text, s, a) ensures r1[a] == m[a] {
      CellsGrow(pos, text, str, c, a);
    }
  }

  class Screen {
    const vid: array<u8>  // vid_buffer
    var scrollPos: nat
    var lastPos: nat
    var currentHeight: int
    var textColor: u8
    var backgroundColor: u8

    // scroll_pos is 0 after a reset, which stands for the display offset.
    function Pos(): nat
      reads this
    {
      if scrollPos == 0 then DISPLAY_OFFSET else scrollPos
    }

    // The text is the cells up to the cursor; every other character cell of the buffer is blank.
    ghost predicate Valid()
      reads this, vid
    {
      && vid.Length == BUFFER_SIZE
      && lastPos % 2 == 0 && lastPos < MAX_ROWS * LINE
      && -237 <= currentHeight <= 0 && Pos() == DISPLAY_OFFSET + LINE * currentHeight
      && BlankElsewhere(vid[..], Pos(), lastPos)
    }

    ghost function Abstract(): (t: Terminal)
      requires Valid()
      reads this, vid
      ensures 2 * |t.text| == lastPos && t.offset == -currentHeight
    {
      Terminal(TextAt(vid[..], Pos(), lastPos / 2), -currentHeight)
    }

    // What the invariant says of the cells, and back.
    lemma Cells()
      requires Valid()
      ensures vid.Length == BUFFER_SIZE && -237 <= currentHeight <= 0 && Pos() == DISPLAY_OFFSET + LINE * currentHeight
      ensures lastPos == 2 * |Abstract().text| < MAX_ROWS * LINE
      ensures TextAt(vid[..], Pos(), |Abstract().text|) == Abstract().text
      ensures BlankElsewhere(vid[..], Pos(), 2 * |Abstract().text|)
    {
    }

    lemma FromCells(n: nat, text: seq<u8>)
      requires vid.Length == BUFFER_SIZE && -237 <= currentHeight <= 0
      requires Pos() == DISPLAY_OFFSET + LINE * currentHeight && lastPos == 2 * n < MAX_ROWS * LINE
      requires BlankElsewhere(vid[..], Pos(), 2 * n) && TextAt(vid[..], Pos(), n) == text
      ensures Valid() && Abstract() == Terminal(text, -currentHeight)
    {
      assert lastPos / 2 == n;
    }

    method GetHeight() returns (h: nat)
      requires Valid()
      ensures h == Height(Abstract().text) && h == lastPos / LINE + 1 <= MAX_ROWS
    {
      h := lastPos / COLS / 2 + 1;
    }

    // The window is the viewport of the abstract terminal.
    lemma WindowShows(row: nat, col: nat)
      requires Valid() && row < ROWS && col < COLS
      ensures Displayed(vid[DISPLAY_OFFSET + LINE * row + 2 * col]) == Shown(Abstract(), row, col)
    {
      var at := (row - currentHeight) * COLS + col;
      assert DISPLAY_OFFSET + LINE * row + 2 * col == Pos() + 2 * at;
    }

    constructor ()
      ensures Valid() && fresh(vid) && Abstract() == Terminal([], 0)
    {
      vid := new u8[BUFFER_SIZE](_ => 0);
      scrollPos, lastPos, currentHeight := DISPLAY_OFFSET, 0, 0;
      textColor, backgroundColor := 15, 0;
    }

    // ---------- Printing ----------

    // The attribute takes its foreground from the color and keeps its background.
    method WriteToCellC(cell: nat, c: u8, color: u8)
      requires vid.Length == BUFFER_SIZE && Pos() + cell + 1 < BUFFER_SIZE
      modifies vid
      ensures vid[..] == old(vid[..])[Pos() + cell := c]
                         [Pos() + cell + 1 := color % 16 + old(vid[Pos() + cell + 1]) / 16 * 16]
    {
      if scrollPos == 0 {
        vid[cell + DISPLAY_OFFSET] := c;
        vid[cell + 1 + DISPLAY_OFFSET] := color % 16 + vid[cell + 1 + DISPLAY_OFFSET] / 16 * 16;
      } else {
        vid[scrollPos + cell] := c;
        vid[scrollPos + cell + 1] := color % 16 + vid[scrollPos + cell + 1] / 16 * 16;
      }
    }

    // One character of display_buff_c.
    method PutChar(c: u8, color: u8)
      requires Valid() && c != 0 && |Typed(Abstract().text, c)| < MAX_ROWS * COLS
      modifies vid, `lastPos
      ensures Valid() && Abstract() == Terminal(Typed(old(Abstract().text), c), -currentHeight)
      ensures Pos() == old(Pos())
      ensures var p := Pos() + old(lastPos);
        vid[..] == if c == NEWLINE then old(vid[..])
                   else old(vid[..])[p := c][p + 1 := color % 16 + old(vid[..])[p + 1] / 16 * 16]
    {
      hide Valid, Abstract, TextAt, BlankElsewhere, Typed;
      ghost var m, text := vid[..], Abstract().text;
      ghost var n, n1: nat := |text|, |Typed(text, c)|;
      Cells();
      TypedCells(text, c);
      if c == NEWLINE {
        NewlineCells(n);
        CursorAppends(m, Pos(), n, n1 - n);
        lastPos := (lastPos / (COLS * 2) + 1) * (COLS * 2) - 2;
      } else {
        WriteToCellC(lastPos, c, color);
        CellAppends(m, vid[..], Pos(), n, c, color % 16 + m[Pos() + lastPos + 1] / 16 * 16);
      }
      lastPos := lastPos + 2;
      FromCells(n1, Typed(text, c));
    }

    method DisplayBuffC(str: seq<u8>, color: u8)
      requires Valid() && 0 !in str && |Printed(Abstract().text, str)| < MAX_ROWS * COLS
      modifies vid, `lastPos
      ensures Valid() && Abstract() == Step(old(Abstract()), Print(str, color))
      ensures Pos() == old(Pos()) && Painted(old(vid[..]), vid[..], Pos(), old(Abstract().text), str, color)
    {
      hide Valid, Abstract, Painted;
      ghost var text, m, pos := Abstract().text, vid[..], Pos();
      var i := 0;
      assert str[..0] == [];
      Cells();
      NothingPainted(m, pos, text, color);
      while i < |str|
        invariant i <= |str| && Valid() && Abstract() == Terminal(Printed(text, str[..i]), -currentHeight)
        invariant Pos() == pos && Painted(m, vid[..], pos, text, str[..i], color)
      {
        PrintedGrows(text, str, i + 1);
        assert str[..i + 1][..i] == str[..i] && str[..i + 1] == str[..i] + [str[i]] && str[..i][..i] == str[..i];
        assert str[i] in str;
        ghost var r := vid[..];
        Cells();
        PutChar(str[i], color);
        PaintStep(m, r, vid[..], pos, text, str[..i], color, str[i]);
        i := i + 1;
      }
      assert str[..i] == str;
    }

    method EraseCell(cell: nat)
      requires vid.Length == BUFFER_SIZE && Pos() + cell < BUFFER_SIZE
      modifies vid
      ensures vid[..] == old(vid[..])[Pos() + cell := 0]
    {
      if scrollPos == 0 {
        vid[cell + DISPLAY_OFFSET] := 0;
      } else {
        vid[scrollPos + cell] := 0;
      }
    }

    // clear_screen blanks the rows of the text; the window stays where it is.
    method ClearScreen()
      requires Valid()
      modifies vid, `lastPos
      ensures Valid() && Abstract() == Step(old(Abstract()), Clear)
      ensures Erased(old(vid[..]), vid[..], Pos(), LINE * Height(old(Abstract().text)))
    {
      hide Valid, Abstract, TextAt, BlankElsewhere, Erased;
      Cells();
      var height := GetHeight();
      ghost var m, k, pos, last := vid[..], 0, Pos(), lastPos;
      var i: nat := 0;
      NoneErased(m, pos);
      while i < COLS * 2 * height
        invariant i == 2 * k && k <= COLS * height
        invariant Pos() == pos && Erased(m, vid[..], pos, i)
      {
        EraseStep(m, vid[..], pos, k);
        EraseCell(i);
        i, k := i + 2, k + 1;
      }
      EraseText(m, vid[..], pos, last, i);
      NothingTyped(vid[..], pos);
      lastPos := 0;
      FromCells(0, []);
    }

    // Takes back the last character. On an empty text the cell before it is blanked, which is blank anyway.
    method EraseLast()
      requires Valid()
      modifies vid, `lastPos
      ensures Valid() && currentHeight == old(currentHeight)
      ensures var text := old(Abstract().text); Abstract().text == if text == [] then [] else text[..|text| - 1]
      ensures vid[..] == old(vid[..])[Pos() + old(lastPos) - 2 := 0]
    {
      hide TextAt, BlankElsewhere;
      ghost var m, n := vid[..], lastPos / 2;
      vid[Pos() + lastPos - 2] := 0;
      if lastPos != 0 {
        CellErased(m, vid[..], Pos(), n);
        lastPos := lastPos - 2;
        assert lastPos / 2 == n - 1;
      } else {
        BlankErased(m, vid[..], Pos(), Pos() - 2);
      }
    }

    function CurCol(): nat
      reads this
    {
      lastPos / 2 % COLS
    }

    // The part of backspace that concerns the screen; margin is the prompt's width.
    method Backspace(margin: nat)
      requires Valid()
      modifies vid, `lastPos
      ensures Valid() && Abstract() == Step(old(Abstract()), Back(margin))
      ensures vid[..] == if |old(Abstract().text)| % COLS < margin then old(vid[..])
                         else old(vid[..])[Pos() + 2 * |old(Abstract().text)| - 2 := 0]
    {
      hide Valid, Abstract, TextAt, BlankElsewhere;
      if CurCol() < margin {
        return;
      }
      EraseLast();
    }

    method ResetShell()
      requires Valid()
      modifies vid, `scrollPos, `lastPos, `currentHeight
      ensures Valid() && Abstract() == Step(old(Abstract()), Reset)
      ensures forall a | 0 <= a < BUFFER_SIZE :: vid[a] == if a % 2 == 0 then 0 else old(vid[a])
    {
      var i := 0;
      while i < BUFFER_SIZE
        invariant i % 2 == 0 && i <= BUFFER_SIZE
        invariant forall a | 0 <= a < BUFFER_SIZE :: vid[a] == if a < i && a % 2 == 0 then 0 else old(vid[a])
      {
        vid[i] := 0;
        i := i + 2;
      }
      lastPos, scrollPos, currentHeight := 0, 0, 0;
    }

    // ---------- Moving text ----------

    method MoveBackwards(source: nat, destination: nat, size: nat)
      requires vid.Length == BUFFER_SIZE && source < destination && destination + size <= BUFFER_SIZE && size % 2 == 0
      modifies vid
      ensures forall a | 0 <= a < BUFFER_SIZE :: vid[a] == Lifted(old(vid[..]), source, destination, size, 0, a)
    {
      ghost var m := vid[..];
      var i := size - 2;
      while i >= 0
        invariant -2 <= i <= size - 2 && i % 2 == 0
        invariant forall a | 0 <= a < BUFFER_SIZE :: vid[a] == Lifted(m, source, destination, size, i + 2, a)
      {
        ghost var r := vid[..];
        vid[destination + i] := vid[source + i];
        vid[destination + i + 1] := vid[source + i + 1];
        vid[source + i] := BLANK;
        LiftStep(m, r, vid[..], source, destination, size, i);
        i := i - 2;
      }
      assert i + 2 == 0;
    }

    // The attribute of an empty cell: background in the upper half, foreground in the lower.
    function Attribute(): (a: u8)
      reads this
      ensures a / 16 == backgroundColor % 16 && a % 16 == textColor % 16
    {
      backgroundColor % 16 * 16 + textColor % 16
    }

    method MoveForwards(source: nat, destination: nat, size: nat)
      requires vid.Length == BUFFER_SIZE && destination <= source && source + size <= BUFFER_SIZE && size % 2 == 0
      modifies vid
      ensures forall a | 0 <= a < BUFFER_SIZE ::
                vid[a] == Sunk(old(vid[..]), source, destination, Attribute(), size, a)
    {
      ghost var m := vid[..];
      var i := 0;
      while i < size
        invariant 0 <= i <= size && i % 2 == 0
        invariant forall a | 0 <= a < BUFFER_SIZE :: vid[a] == Sunk(m, source, destination, Attribute(), i, a)
      {
        ghost var r := vid[..];
        vid[destination + i] := vid[source + i];
        vid[destination + i + 1] := vid[source + i + 1];
        vid[source + i] := BLANK;
        vid[source + i + 1] := Attribute();
        SinkStep(m, r, vid[..], source, destination, size, Attribute(), i);
        i := i + 2;
      }
    }

    // Moves depth rows; a move that would leave the buffer is refused. Source and destination may overlap.
    method ShiftBuffer(source: int, destination: int, depth: nat)
      requires vid.Length == BUFFER_SIZE
      modifies vid
      ensures Refused(source, destination, depth) ==> vid[..] == old(vid[..])
      ensures !Refused(source, destination, depth) ==>
                forall a | 0 <= a < BUFFER_SIZE ::
                  vid[a] == Moved(old(vid[..]), source, destination, depth * LINE, Attribute(), a)
    {
      var size := depth * COLS * 2;
      if source < 0 || destination < 0 || source + size > BUFFER_SIZE || destination + size > BUFFER_SIZE {
        return;
      }
      if source < destination {
        MoveBackwards(source, destination, size);
      } else {
        MoveForwards(source, destination, size);
      }
    }

    // The move itself never refuses and is never a move onto itself. While scroll_pos is 0 nothing is scrolled
    // off, so only the move up can meet that value: the branch of scroll_down for it is never taken.
    method ShiftRows(rows: int, height: nat)
      requires Valid() && rows != 0 && -237 <= currentHeight + rows <= 0 && height <= MAX_ROWS
      modifies vid, `scrollPos
      ensures scrollPos == old(Pos()) + LINE * rows
      ensures forall a | 0 <= a < BUFFER_SIZE ::
                vid[a] == Moved(old(vid[..]), old(Pos()), scrollPos, height * LINE, Attribute(), a)
    {
      hide Moved, BlankElsewhere;
      if scrollPos == 0 {
        ShiftBuffer(DISPLAY_OFFSET, DISPLAY_OFFSET + LINE * rows, height);
        scrollPos := DISPLAY_OFFSET + LINE * rows;
      } else {
        ShiftBuffer(scrollPos, scrollPos + LINE * rows, height);
        scrollPos := scrollPos + LINE * rows;
      }
    }

    // The rows of the text with their attributes.
    function Rows(): seq<u8>
      requires Valid()
      reads this, vid
    {
      vid[Pos()..Pos() + (lastPos / LINE + 1) * LINE]
    }

    // Moving the text by whole rows keeps it, attributes included.
    method MoveText(rows: int, height: nat)
      requires Valid() && rows != 0 && -237 <= currentHeight + rows <= 0 && height == lastPos / LINE + 1
      modifies vid, `scrollPos, `currentHeight
      ensures Valid() && currentHeight == old(currentHeight) + rows
      ensures Abstract().text == old(Abstract().text) && Rows() == old(Rows())
      ensures forall a | 0 <= a < BUFFER_SIZE ::
                vid[a] == Moved(old(vid[..]), old(Pos()), Pos(), height * LINE, Attribute(), a)
    {
      hide Moved, BlankElsewhere, TextAt;
      ghost var m, n, pos := vid[..], lastPos / 2, Pos();
      ShiftRows(rows, height);
      RowsMove(m, vid[..], pos, Pos(), n, height, Attribute());
      currentHeight := currentHeight + rows;
    }

    // scroll_up: one row at a time, until the row of the cursor is in the window.
    method ScrollUp()
      requires Valid()
      modifies vid, `scrollPos, `currentHeight
      ensures Valid() && Abstract() == Step(old(Abstract()), Up) && Rows() == old(Rows())
      ensures if Pos() == old(Pos()) then vid[..] == old(vid[..])
              else forall a | 0 <= a < BUFFER_SIZE ::
                vid[a] == Moved(old(vid[..]), old(Pos()), Pos(), (lastPos / LINE + 1) * LINE, Attribute(), a)
    {
      var height := GetHeight();
      var extraRows := height - ROWS;
      if extraRows <= 0 {
        return;
      }
      if -currentHeight < extraRows {
        MoveText(-1, height);
      }
    }

    method ScrollDown()
      requires Valid()
      modifies vid, `scrollPos, `currentHeight
      ensures Valid() && Abstract() == Step(old(Abstract()), Down) && Rows() == old(Rows())
      ensures if Pos() == old(Pos()) then vid[..] == old(vid[..])
              else forall a | 0 <= a < BUFFER_SIZE ::
                vid[a] == Moved(old(vid[..]), old(Pos()), Pos(), (lastPos / LINE + 1) * LINE, Attribute(), a)
    {
      if currentHeight < 0 {
        var height := GetHeight();
        MoveText(1, height);
      }
    }

    // show_buffer copies the window to video memory.
    method ShowBuffer(videoMemory: array<u8>)
      requires Valid() && videoMemory != vid && videoMemory.Length >= ROWS * LINE
      modifies videoMemory
      ensures videoMemory[..ROWS * LINE] == vid[DISPLAY_OFFSET..DISPLAY_OFFSET + ROWS * LINE]
      ensures forall row, col | 0 <= row < ROWS && 0 <= col < COLS ::
                Displayed(videoMemory[LINE * row + 2 * col]) == Shown(Abstract(), row, col)
    {
      var i := 0;
      while i < ROWS * COLS * 2
        invariant i % 2 == 0 && i <= ROWS * COLS * 2
        invariant forall a | 0 <= a < i :: videoMemory[a] == vid[a + DISPLAY_OFFSET]
      {
        videoMemory[i] := vid[i + DISPLAY_OFFSET];
        videoMemory[i + 1] := vid[i + DISPLAY_OFFSET + 1];
        i := i + 2;
      }
      forall row, col | 0 <= row < ROWS && 0 <= col < COLS
        ensures Displayed(videoMemory[LINE * row + 2 * col]) == Shown(Abstract(), row, col)
      {
        WindowShows(row, col);
      }
    }
  }
}

/** The output functions of the printf engine, and what sending a text to one of them does. */
module PrintfSink {
  import opened Machine
  import opened Text

  // _out_buffer, _out_null and _out_char
  datatype OutFct = OutBuffer | OutNull | OutChar

  // The contents of the caller's buffer, and the characters shown on the console so far.
  datatype View = View(mem: string, shown: string)

  function Put(out: OutFct, v: View, c: char, idx: nat, maxlen: u32): View {
    match out
    case OutBuffer => if idx < maxlen && idx < |v.mem| then v.(mem := v.mem[idx := c]) else v
    case OutNull => v
    case OutChar => if c != '\0' then v.(shown := v.shown + [c]) else v
  }

  // Sending text, one character after the other, from index idx on.
  function Emit(out: OutFct, v: View, idx: nat, maxlen: u32, text: string): (r: View)
    ensures |r.mem| == |v.mem|
  {
    if text == "" then v
    else Put(out, Emit(out, v, idx, maxlen, text[..|text| - 1]), text[|text| - 1], idx + |text| - 1, maxlen)
  }

  lemma EmitSnoc(out: OutFct, v: View, idx: nat, maxlen: u32, text: string, c: char)
    ensures Emit(out, v, idx, maxlen, text + [c]) == Put(out, Emit(out, v, idx, maxlen, text), c, idx + |text|, maxlen)
  {
    assert (text + [c])[..|text|] == text;
  }

  lemma EmitNone(out: OutFct, v: View, idx: nat, maxlen: u32, text: string)
    requires text == ""
    ensures Emit(out, v, idx, maxlen, text) == v
  {
  }

  lemma EmitOne(out: OutFct, v: View, idx: nat, maxlen: u32, c: char)
    ensures Emit(out, v, idx, maxlen, [c]) == Put(out, v, c, idx, maxlen)
  {
    EmitSnoc(out, v, idx, maxlen, "", c);
    assert "" + [c] == [c];
  }

  lemma {:induction false} EmitAppend(out: OutFct, v: View, idx: nat, maxlen: u32, s: string, t: string)
    ensures Emit(out, v, idx, maxlen, s + t) == Emit(out, Emit(out, v, idx, maxlen, s), idx + |s|, maxlen, t)
    decreases |t|
  {
    if t == "" {
      assert s + t == s;
    } else {
      assert (s + t)[..|s + t| - 1] == s + t[..|t| - 1];
      EmitAppend(out, v, idx, maxlen, s, t[..|t| - 1]);
    }
  }

  lemma EmitThen(out: OutFct, start: View, before: View, after: View, idx: nat, maxlen: u32, s: string, t: string)
    requires before == Emit(out, start, 0, maxlen, s) && idx == |s|
    requires after == Emit(out, before, idx, maxlen, t)
    ensures after == Emit(out, start, 0, maxlen, s + t)
  {
    EmitAppend(out, start, 0, maxlen, s, t);
  }

  // The buffer output keeps what fits below maxlen and touches nothing else.
  lemma {:induction false} EmitToBuffer(v: View, idx: nat, maxlen: u32, text: string)
    ensures var r := Emit(OutBuffer, v, idx, maxlen, text);
      && r.shown == v.shown && |r.mem| == |v.mem|
      && forall k | 0 <= k < |v.mem| ::
           r.mem[k] == if idx <= k < idx + |text| && k < maxlen then text[k - idx] else v.mem[k]
  {
    if text != "" {
      EmitToBuffer(v, idx, maxlen, text[..|text| - 1]);
    }
  }

  lemma {:induction false} EmitToNull(v: View, idx: nat, maxlen: u32, text: string)
    ensures Emit(OutNull, v, idx, maxlen, text) == v
  {
    if text != "" {
      EmitToNull(v, idx, maxlen, text[..|text| - 1]);
    }
  }

  function WithoutNul(s: string): string {
    if s == "" then ""
    else WithoutNul(s[..|s| - 1]) + (if s[|s| - 1] == '\0' then "" else [s[|s| - 1]])
  }

  // It has no NUL, loses nothing else, and keeps the order.
  lemma {:induction false} WithoutNulJoin(s: string, t: string)
    ensures WithoutNul(s + t) == WithoutNul(s) + WithoutNul(t)
  {
    if t == "" {
      assert s + t == s;
    } else {
      assert (s + t)[..|s + t| - 1] == s + t[..|t| - 1];
      WithoutNulJoin(s, t[..|t| - 1]);
    }
  }

  lemma {:induction false} WithoutNulIs(s: string, t: string)
    ensures '\0' !in WithoutNul(s) && ('\0' !in s ==> WithoutNul(s) == s)
    ensures WithoutNul(s + t) == WithoutNul(s) + WithoutNul(t)
  {
    WithoutNulJoin(s, t);
    if s != "" {
      WithoutNulIs(s[..|s| - 1], "");
      assert s == s[..|s| - 1] + [s[|s| - 1]];
    }
  }

  // The console output shows everything but NUL characters.
  lemma {:induction false} EmitToConsole(v: View, idx: nat, maxlen: u32, text: string)
    ensures Emit(OutChar, v, idx, maxlen, text) == View(v.mem, v.shown + WithoutNul(text))
  {
    if text == "" {
      assert v.shown + "" == v.shown;
    } else {
      EmitToConsole(v, idx, maxlen, text[..|text| - 1]);
      var w, c := WithoutNul(text[..|text| - 1]), text[|text| - 1];
      assert v.shown + (w + [c]) == (v.shown + w) + [c];
      assert w + "" == w;
    }
  }

  class Sink {
    const buffer: array?<char>
    var shown: string

    constructor (buffer: array?<char>)
      ensures this.buffer == buffer && shown == ""
    {
      this.buffer := buffer;
      shown := "";
    }

    function Now(): View
      reads this, buffer
    {
      View(if buffer == null then "" else buffer[..], shown)
    }

    // The buffer can take every write below index end that the output function lets through.
    predicate Room(out: OutFct, end: int, maxlen: u32) {
      out == OutBuffer ==> buffer != null && Min(end, maxlen) <= buffer.Length
    }

    method Out(out: OutFct, c: char, idx: nat, maxlen: u32)
      requires Room(out, idx + 1, maxlen)
      modifies this, buffer
      ensures Now() == Put(out, old(Now()), c, idx, maxlen)
    {
      match out
      case OutBuffer =>
        if idx < maxlen {
          buffer[idx] := c;
        }
      case OutNull =>
      case OutChar =>
        if c != '\0' {
          shown := shown + [c];
        }
    }

    // Padding: one blank for each count from `from` up to `to`.
    method OutBlanks(out: OutFct, idx: nat, maxlen: u32, from: nat, to: nat) returns (end: nat)
      requires Room(out, idx + Max(to - from, 0), maxlen)
      modifies this, buffer
      ensures Now() == Emit(out, old(Now()), idx, maxlen, Repeat(' ', to - from))
      ensures end == idx + Max(to - from, 0)
    {
      hide Emit, Put;
      end := idx;
      var i := from;
      ghost var start, sent := Now(), "";
      EmitNone(out, start, idx, maxlen, sent);
      while i < to
        invariant from <= i && (i <= to || i == from)
        invariant |sent| == i - from && end == idx + |sent|
        invariant forall k | 0 <= k < |sent| :: sent[k] == ' '
        invariant Now() == Emit(out, start, idx, maxlen, sent)
      {
        EmitSnoc(out, start, idx, maxlen, sent, ' ');
        Out(out, ' ', end, maxlen);
        end, i, sent := end + 1, i + 1, sent + [' '];
      }
      assert sent == Repeat(' ', to - from);
    }
  }
}

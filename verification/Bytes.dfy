/** Little-endian words in a sequence of bytes. */
module Bytes {
  import opened Machine

  function Get16(m: seq<u8>, i: nat): u16
    requires i + 2 <= |m|
  {
    m[i] as int + 0x100 * m[i + 1] as int
  }

  function Get32(m: seq<u8>, i: nat): u32
    requires i + 4 <= |m|
  {
    m[i] as int + 0x100 * m[i + 1] as int + 0x1_0000 * m[i + 2] as int + 0x100_0000 * m[i + 3] as int
  }

  function Put32(m: seq<u8>, i: nat, w: u32): (r: seq<u8>)
    requires i + 4 <= |m|
    ensures |r| == |m| && Get32(r, i) == w
    ensures forall k | 0 <= k < |m| && !(i <= k < i + 4) :: r[k] == m[k]
    ensures forall j | 0 <= j <= |m| - 4 && (j + 4 <= i || i + 4 <= j) :: Get32(r, j) == Get32(m, j)
  {
    var q1 := w / 0x100;
    var q2 := q1 / 0x100;
    m[i := w % 0x100][i + 1 := q1 % 0x100][i + 2 := q2 % 0x100][i + 3 := q2 / 0x100]
  }

  lemma Get32Same(m: seq<u8>, r: seq<u8>, i: nat)
    requires i + 4 <= |m| && |r| == |m|
    requires forall k | i <= k < i + 4 :: r[k] == m[k]
    ensures Get32(r, i) == Get32(m, i)
  {
  }

  // A word as its bytes, the lowest first.
  function Le16(w: u16): (b: seq<u8>)
    ensures |b| == 2
  {
    [w % 256, w / 256]
  }

  function Le32(w: u32): (b: seq<u8>)
    ensures |b| == 4
  {
    var q1 := w / 256;
    var q2 := q1 / 256;
    [w % 256, q1 % 256, q2 % 256, q2 / 256]
  }

  lemma ReadLe16(m: seq<u8>, i: nat, w: u16)
    requires i + 2 <= |m| && m[i..i + 2] == Le16(w)
    ensures Get16(m, i) == w
  {
    assert m[i] == m[i..i + 2][0] && m[i + 1] == m[i..i + 2][1];
  }

  lemma ReadLe32(m: seq<u8>, i: nat, w: u32)
    requires i + 4 <= |m| && m[i..i + 4] == Le32(w)
    ensures Get32(m, i) == w
  {
    var b := m[i..i + 4];
    assert m[i] == b[0] && m[i + 1] == b[1] && m[i + 2] == b[2] && m[i + 3] == b[3];
  }

  method Load16(mem: array<u8>, i: nat) returns (w: u16)
    requires i + 2 <= mem.Length
    ensures w == Get16(mem[..], i)
  {
    w := mem[i] as int + 0x100 * mem[i + 1] as int;
  }

  method Load32(mem: array<u8>, i: nat) returns (w: u32)
    requires i + 4 <= mem.Length
    ensures w == Get32(mem[..], i)
  {
    w := mem[i] as int + 0x100 * mem[i + 1] as int + 0x1_0000 * mem[i + 2] as int + 0x100_0000 * mem[i + 3] as int;
  }

  method Store32(mem: array<u8>, i: nat, w: u32)
    requires i + 4 <= mem.Length
    modifies mem
    ensures mem[..] == Put32(old(mem[..]), i, w)
  {
    var q1 := w / 0x100;
    var q2 := q1 / 0x100;
    mem[i] := w % 0x100;
    mem[i + 1] := q1 % 0x100;
    mem[i + 2] := q2 % 0x100;
    mem[i + 3] := q2 / 0x100;
  }
}

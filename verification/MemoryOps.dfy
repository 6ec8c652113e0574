/** memcpy, word by word with a byte tail, and memset, on the bytes of memory. */
module MemoryOps {
  import opened Machine

  const WORD: nat := 4  // sizeof(unsigned long) on the 32-bit target

  // One word from s to d: all its bytes are read before the first is written.
  function MoveWord(m: seq<u8>, d: nat, s: nat): (r: seq<u8>)
    requires d + WORD <= |m| && s + WORD <= |m|
    ensures |r| == |m|
  {
    m[d := m[s]][d + 1 := m[s + 1]][d + 2 := m[s + 2]][d + 3 := m[s + 3]]
  }

  // The memory that memcpy leaves: words from the front, then the tail byte by byte.
  function Copied(m: seq<u8>, d: nat, s: nat, n: nat): (r: seq<u8>)
    requires d + n <= |m| && s + n <= |m|
    ensures |r| == |m|
    decreases n
  {
    if n >= WORD then Copied(MoveWord(m, d, s), d + WORD, s + WORD, n - WORD)
    else if n > 0 then Copied(m[d := m[s]], d + 1, s + 1, n - 1)
    else m
  }

  // The byte at address a after n bytes at s are copied to d, all read before any is written.
  function CopyByte(m: seq<u8>, d: nat, s: nat, n: nat, a: nat): u8
    requires d + n <= |m| && s + n <= |m| && a < |m|
  {
    if d <= a < d + n then m[s + (a - d)] else m[a]
  }

  // Memory r holds the n bytes that m has at s at d, and is m everywhere else.
  ghost predicate IsCopy(m: seq<u8>, r: seq<u8>, d: nat, s: nat, n: nat)
    requires d + n <= |m| && s + n <= |m|
  {
    |r| == |m| && forall a | 0 <= a < |m| :: r[a] == CopyByte(m, d, s, n, a)
  }

  // How much the next move takes, a word or a byte, and the memory after it.
  function Unit(n: nat): nat {
    if n >= WORD then WORD else 1
  }

  function FirstMove(m: seq<u8>, d: nat, s: nat, n: nat): (r: seq<u8>)
    requires 0 < n && d + n <= |m| && s + n <= |m|
    ensures |r| == |m|
  {
    if n >= WORD then MoveWord(m, d, s) else m[d := m[s]]
  }

  lemma CopiedStep(m: seq<u8>, d: nat, s: nat, n: nat)
    requires 0 < n && d + n <= |m| && s + n <= |m|
    ensures Copied(m, d, s, n) == Copied(FirstMove(m, d, s, n), d + Unit(n), s + Unit(n), n - Unit(n))
  {
  }

  // A move reads all its bytes before it writes one.
  lemma FirstMoveCopies(m: seq<u8>, d: nat, s: nat, n: nat)
    requires 0 < n && d + n <= |m| && s + n <= |m|
    ensures IsCopy(m, FirstMove(m, d, s, n), d, s, Unit(n))
  {
  }

  // Two copies one after the other are one, when the first leaves what the second reads.
  lemma CopiesJoin(m: seq<u8>, m1: seq<u8>, r: seq<u8>, d: nat, s: nat, n: nat, k: nat)
    requires d + n <= |m| && s + n <= |m| && k <= n && (d <= s || s + n <= d)
    requires IsCopy(m, m1, d, s, k) && |m1| == |m| && IsCopy(m1, r, d + k, s + k, n - k)
    ensures IsCopy(m, r, d, s, n)
  {
    forall a | 0 <= a < |m| ensures r[a] == CopyByte(m, d, s, n, a) {
      assert r[a] == CopyByte(m1, d + k, s + k, n - k, a);
      assert m1[a] == CopyByte(m, d, s, k, a);
      if d + k <= a < d + n {
        var b := s + (a - d);
        assert m1[b] == CopyByte(m, d, s, k, b) == m[b];
      }
    }
  }

  lemma CopyNothing(m: seq<u8>, d: nat, s: nat)
    requires d <= |m| && s <= |m|
    ensures Copied(m, d, s, 0) == m && IsCopy(m, m, d, s, 0)
  {
  }

  lemma {:induction false} ForwardCopy(m: seq<u8>, d: nat, s: nat, n: nat)
    requires d + n <= |m| && s + n <= |m| && (d <= s || s + n <= d)
    ensures IsCopy(m, Copied(m, d, s, n), d, s, n)
    decreases n
  {
    hide Copied, FirstMove, IsCopy;
    if n == 0 {
      CopyNothing(m, d, s);
    } else {
      var k, m1 := Unit(n), FirstMove(m, d, s, n);
      CopiedStep(m, d, s, n);
      FirstMoveCopies(m, d, s, n);
      ForwardCopy(m1, d + k, s + k, n - k);
      CopiesJoin(m, m1, Copied(m, d, s, n), d, s, n, k);
    }
  }

  // ---------- Where the copy goes wrong ----------

  lemma {:induction false} OutsideUnchanged(m: seq<u8>, d: nat, s: nat, n: nat, a: nat)
    requires d + n <= |m| && s + n <= |m| && a < |m| && !(d <= a < d + n)
    ensures Copied(m, d, s, n)[a] == m[a]
    decreases n
  {
    hide Copied, FirstMove;
    if n == 0 {
      CopyNothing(m, d, s);
    } else {
      var k, m1 := Unit(n), FirstMove(m, d, s, n);
      CopiedStep(m, d, s, n);
      FirstMoveCopies(m, d, s, n);
      OutsideUnchanged(m1, d + k, s + k, n - k, a);
      assert m1[a] == CopyByte(m, d, s, k, a);
    }
  }

  // A move of zeros leaves the zeros of its source zero.
  lemma ZerosMoved(m: seq<u8>, m1: seq<u8>, d: nat, s: nat, n: nat, k: nat)
    requires d + n <= |m| && s + n <= |m| && k <= n && IsCopy(m, m1, d, s, k)
    requires forall j | s <= j < s + n :: m[j] == 0
    ensures (forall j | s <= j < s + n :: m1[j] == 0) && (forall j | d <= j < d + k :: m1[j] == 0)
  {
    forall j | s <= j < s + n || d <= j < d + k ensures m1[j] == 0 {
      assert m1[j] == CopyByte(m, d, s, k, j);
    }
  }

  // Copying zeros writes zeros, wherever they go.
  lemma {:induction false} ZerosStayZero(m: seq<u8>, d: nat, s: nat, n: nat, i: nat)
    requires d + n <= |m| && s + n <= |m| && i < n
    requires forall j | s <= j < s + n :: m[j] == 0
    ensures Copied(m, d, s, n)[d + i] == 0
    decreases n
  {
    hide Copied, FirstMove, IsCopy;
    var k, m1 := Unit(n), FirstMove(m, d, s, n);
    CopiedStep(m, d, s, n);
    FirstMoveCopies(m, d, s, n);
    ZerosMoved(m, m1, d, s, n, k);
    if i >= k {
      ZerosStayZero(m1, d + k, s + k, n - k, i - k);
    } else {
      OutsideUnchanged(m1, d + k, s + k, n - k, d + i);
    }
  }

  // The first source byte that the first move overwrites before it is read.
  function LostByte(d: nat, s: nat, n: nat): nat
    requires s < d
  {
    if n > WORD && d - s < WORD then WORD else d - s
  }

  // Memory that is zero except for that byte.
  function OneByte(size: nat, at: nat): (m: seq<u8>)
    ensures |m| == size && forall i | 0 <= i < size :: m[i] == if i == at then 1 else 0
  {
    seq(size, i => if i == at then 1 else 0)
  }

  // The first move overwrites the lost byte, and nothing else of the source still to be read is set.
  lemma ByteIsLost(m: seq<u8>, m1: seq<u8>, d: nat, s: nat, n: nat, lost: nat)
    requires d + n <= |m| && s < d < s + n && n != WORD && lost == LostByte(d, s, n)
    requires m == OneByte(|m|, s + lost) && IsCopy(m, m1, d, s, Unit(n))
    ensures Unit(n) <= lost < n && forall j | s + Unit(n) <= j < s + n :: m1[j] == 0
  {
    forall j | s + Unit(n) <= j < s + n ensures m1[j] == 0 {
      assert m1[j] == CopyByte(m, d, s, Unit(n), j);
    }
  }

  lemma OverlapLoses(size: nat, d: nat, s: nat, n: nat)
    requires d + n <= size && s < d < s + n && n != WORD
    ensures var m := OneByte(size, s + LostByte(d, s, n)); !IsCopy(m, Copied(m, d, s, n), d, s, n)
  {
    hide Copied, FirstMove, OneByte, LostByte;
    var lost := LostByte(d, s, n);
    var m := OneByte(size, s + lost);
    var k, m1 := Unit(n), FirstMove(m, d, s, n);
    FirstMoveCopies(m, d, s, n);
    ByteIsLost(m, m1, d, s, n, lost);
    CopiedStep(m, d, s, n);
    ZerosStayZero(m1, d + k, s + k, n - k, lost - k);
    assert CopyByte(m, d, s, n, d + lost) == 1;
  }

  // memcpy copies correctly, whatever the memory holds, exactly when the destination does not start
  // inside the source behind its first byte, or a single word is copied.
  lemma CopyExact(size: nat, d: nat, s: nat, n: nat)
    requires d + n <= size && s + n <= size
    ensures (forall m: seq<u8> | |m| == size :: IsCopy(m, Copied(m, d, s, n), d, s, n))
            <==> d <= s || s + n <= d || n == WORD
  {
    if d <= s || s + n <= d {
      forall m: seq<u8> | |m| == size ensures IsCopy(m, Copied(m, d, s, n), d, s, n) {
        ForwardCopy(m, d, s, n);
      }
    } else if n != WORD {
      OverlapLoses(size, d, s, n);
      assert |OneByte(size, s + LostByte(d, s, n))| == size;
    } else {
      forall m: seq<u8> | |m| == size ensures IsCopy(m, Copied(m, d, s, n), d, s, n) {
        CopiedStep(m, d, s, n);
        FirstMoveCopies(m, d, s, n);
        CopyNothing(FirstMove(m, d, s, n), d + n, s + n);
      }
    }
  }

  method Memcpy(mem: array<u8>, dest: nat, src: nat, n0: nat)
    requires dest + n0 <= mem.Length && src + n0 <= mem.Length
    modifies mem
    ensures mem[..] == Copied(old(mem[..]), dest, src, n0)
  {
    hide Copied;
    var d, s, n := dest, src, n0;
    while n >= WORD
      invariant 0 <= n <= n0 && d == dest + (n0 - n) && s == src + (n0 - n)
      invariant Copied(mem[..], d, s, n) == Copied(old(mem[..]), dest, src, n0)
    {
      ghost var m := mem[..];
      CopiedStep(m, d, s, n);
      var b0, b1, b2, b3 := mem[s], mem[s + 1], mem[s + 2], mem[s + 3];
      mem[d], mem[d + 1], mem[d + 2], mem[d + 3] := b0, b1, b2, b3;
      assert mem[..] == MoveWord(m, d, s);
      d, s, n := d + WORD, s + WORD, n - WORD;
    }
    while n > 0
      invariant 0 <= n < WORD && n <= n0 && d == dest + (n0 - n) && s == src + (n0 - n)
      invariant Copied(mem[..], d, s, n) == Copied(old(mem[..]), dest, src, n0)
    {
      ghost var m := mem[..];
      CopiedStep(m, d, s, n);
      mem[d] := mem[s];
      assert mem[..] == m[d := m[s]];
      d, s, n := d + 1, s + 1, n - 1;
    }
    CopyNothing(mem[..], d, s);
  }

  method Memset(mem: array<u8>, p: nat, value: u8, num: nat)
    requires p + num <= mem.Length
    modifies mem
    ensures forall i | p <= i < p + num :: mem[i] == value
    ensures forall i | 0 <= i < mem.Length && !(p <= i < p + num) :: mem[i] == old(mem[i])
  {
    var i := 0;
    while i < num
      invariant i <= num
      invariant forall j | p <= j < p + i :: mem[j] == value
      invariant forall j | 0 <= j < mem.Length && !(p <= j < p + i) :: mem[j] == old(mem[j])
    {
      mem[p + i] := value;
      i := i + 1;
    }
  }
}

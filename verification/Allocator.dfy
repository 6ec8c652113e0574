/** The first-fit allocator: MemBlock headers inside the bytes of the heap that it hands out. */
module Allocator {
  import opened Machine
  import opened Bytes
  import opened HeapModel

  // The header bytes at b.addr hold size, next and free.
  ghost predicate HeaderIs(m: seq<u8>, base: nat, b: Block, next: nat) {
    && base <= b.addr && b.addr - base + HEADER <= |m|
    && Get32(m, b.addr - base) == b.size
    && Get32(m, b.addr - base + 4) == next
    && (Get32(m, b.addr - base + 8) != 0 <==> b.free)
  }

  // The next field of block k: the block after it, or NULL.
  function Next(bs: seq<Block>, k: nat): nat
    requires k < |bs|
  {
    if k + 1 < |bs| then bs[k + 1].addr else 0
  }

  // The list that starts at `base` in memory m is bs. The last 12 bytes of the heap belong to no block.
  ghost predicate Represents(m: seq<u8>, base: nat, bs: seq<Block>) {
    && |m| >= HEADER && Tiles(bs, base, base + |m| - HEADER)
    && forall k | 0 <= k < |bs| :: HeaderIs(m, base, bs[k], Next(bs, k))
  }

  // Memory holds some well-formed block list.
  ghost predicate WellFormed(m: seq<u8>, base: nat) {
    exists bs :: Represents(m, base, bs)
  }

  lemma BlockFacts(m: seq<u8>, base: nat, bs: seq<Block>, j: nat)
    requires Represents(m, base, bs)
    ensures |bs| > 0 && bs[0].addr == base && |m| >= HEADER && Tiles(bs, base, base + |m| - HEADER)
    ensures j < |bs| ==> HeaderIs(m, base, bs[j], Next(bs, j)) && bs[j].size >= HEADER
  {
  }

  // Bytes that a change inside block k leaves alone keep the headers of the other blocks.
  lemma OtherHeaders(m: seq<u8>, r: seq<u8>, base: nat, bs: seq<Block>, k: nat, j: nat)
    requires Represents(m, base, bs) && k < |bs| && j < |bs| && j != k && |r| == |m|
    requires forall i | 0 <= i < |m| && !(bs[k].addr - base <= i < End(bs[k]) - base) :: r[i] == m[i]
    ensures HeaderIs(r, base, bs[j], Next(bs, j))
  {
    hide Represents, Tiles;
    BlockFacts(m, base, bs, j);
    BlockFacts(m, base, bs, k);
    if j < k {
      Ordered(bs, base, base + |m| - HEADER, j, k);
    } else {
      Ordered(bs, base, base + |m| - HEADER, k, j);
    }
    Get32Same(m, r, bs[j].addr - base);
    Get32Same(m, r, bs[j].addr - base + 4);
    Get32Same(m, r, bs[j].addr - base + 8);
  }

  // Equal headers lead to equal successors.
  lemma SameNext(m: seq<u8>, r: seq<u8>, base: nat, b: Block, c: Block, next: nat, next': nat)
    requires b.addr == c.addr && HeaderIs(m, base, b, next) && HeaderIs(r, base, c, next') && |r| == |m|
    requires forall i | b.addr - base <= i < b.addr - base + HEADER :: r[i] == m[i]
    ensures next' == next && c.size == b.size
  {
    Get32Same(m, r, b.addr - base);
    Get32Same(m, r, b.addr - base + 4);
  }

  // A block list is determined by the memory, up to and including the first header that differs.
  lemma {:induction false} SameUpTo(m: seq<u8>, r: seq<u8>, base: nat, bs: seq<Block>, cs: seq<Block>, k: nat, j: nat)
    requires 0 < base && Represents(m, base, bs) && k < |bs| && j <= k && |r| == |m| && Represents(r, base, cs)
    requires forall i | 0 <= i < bs[k].addr - base :: r[i] == m[i]
    ensures j < |cs| && cs[j].addr == bs[j].addr
    decreases j
  {
    hide Represents, Tiles, HeaderIs;
    BlockFacts(m, base, bs, j);
    BlockFacts(r, base, cs, j);
    if j > 0 {
      SameUpTo(m, r, base, bs, cs, k, j - 1);
      Ordered(bs, base, base + |m| - HEADER, j - 1, k);
      Inside(bs, base, base + |m| - HEADER, j);
      BlockFacts(m, base, bs, j - 1);
      BlockFacts(r, base, cs, j - 1);
      SameNext(m, r, base, bs[j - 1], cs[j - 1], Next(bs, j - 1), Next(cs, j - 1));
    }
  }

  // Memory in which the header of block k reports a size below its own holds no block list.
  lemma ShortBlock(m: seq<u8>, r: seq<u8>, base: nat, bs: seq<Block>, k: nat, cs: seq<Block>)
    requires 0 < base && Represents(m, base, bs) && k < |bs| && |r| == |m|
    requires forall i | 0 <= i < bs[k].addr - base :: r[i] == m[i]
    requires base <= bs[k].addr && bs[k].addr - base + HEADER <= |m| && Get32(r, bs[k].addr - base) < HEADER
    ensures !Represents(r, base, cs)
  {
    hide Represents, Tiles;
    if Represents(r, base, cs) {
      SameUpTo(m, r, base, bs, cs, k, k);
      BlockFacts(r, base, cs, k);
    }
  }

  lemma ShortBlockBreaks(m: seq<u8>, r: seq<u8>, base: nat, bs: seq<Block>, k: nat)
    requires 0 < base && Represents(m, base, bs) && k < |bs| && |r| == |m|
    requires forall i | 0 <= i < bs[k].addr - base :: r[i] == m[i]
    requires base <= bs[k].addr && bs[k].addr - base + HEADER <= |m| && Get32(r, bs[k].addr - base) < HEADER
    ensures !WellFormed(r, base)
  {
    forall cs: seq<Block> ensures !Represents(r, base, cs) {
      ShortBlock(m, r, base, bs, k, cs);
    }
  }

  lemma AllHeaders(r: seq<u8>, base: nat, cs: seq<Block>)
    requires |r| >= HEADER && Tiles(cs, base, base + |r| - HEADER)
    requires forall j | 0 <= j < |cs| :: HeaderIs(r, base, cs[j], Next(cs, j))
    ensures Represents(r, base, cs)
  {
  }

  lemma FlagHeader(m: seq<u8>, r: seq<u8>, base: nat, b: Block, next: nat, free: bool)
    requires HeaderIs(m, base, b, next) && |r| == |m|
    requires forall i | 0 <= i < |m| && !(b.addr - base + 8 <= i < b.addr - base + 12) :: r[i] == m[i]
    requires Get32(r, b.addr - base + 8) != 0 <==> free
    ensures HeaderIs(r, base, Block(b.addr, b.size, free), next)
  {
    Get32Same(m, r, b.addr - base);
    Get32Same(m, r, b.addr - base + 4);
  }

  lemma FlagHeaderAt(m: seq<u8>, r: seq<u8>, base: nat, bs: seq<Block>, k: nat, free: bool, j: nat)
    requires Represents(m, base, bs) && k < |bs| && base <= bs[k].addr && bs[k].addr - base + HEADER <= |m|
    requires |r| == |m| && j < |bs|
    requires forall i | 0 <= i < |m| && !(bs[k].addr - base + 8 <= i < bs[k].addr - base + 12) :: r[i] == m[i]
    requires Get32(r, bs[k].addr - base + 8) != 0 <==> free
    ensures var cs := bs[k := Block(bs[k].addr, bs[k].size, free)];
      HeaderIs(r, base, cs[j], Next(cs, j))
  {
    hide Represents, Tiles, HeaderIs;
    var cs := bs[k := Block(bs[k].addr, bs[k].size, free)];
    assert Next(cs, j) == Next(bs, j);
    BlockFacts(m, base, bs, k);
    if j != k {
      OtherHeaders(m, r, base, bs, k, j);
    } else {
      FlagHeader(m, r, base, bs[k], Next(bs, k), free);
    }
  }

  // Marking block k as taken or free, its other header fields unchanged.
  lemma FlagRepresents(m: seq<u8>, r: seq<u8>, base: nat, bs: seq<Block>, k: nat, free: bool)
    requires Represents(m, base, bs) && k < |bs| && base <= bs[k].addr && bs[k].addr - base + HEADER <= |m|
    requires |r| == |m|
    requires forall i | 0 <= i < |m| && !(bs[k].addr - base + 8 <= i < bs[k].addr - base + 12) :: r[i] == m[i]
    requires Get32(r, bs[k].addr - base + 8) != 0 <==> free
    ensures Represents(r, base, bs[k := Block(bs[k].addr, bs[k].size, free)])
  {
    var cs := bs[k := Block(bs[k].addr, bs[k].size, free)];
    hide Represents, Tiles, HeaderIs;
    BlockFacts(m, base, bs, k);
    FlagTiles(bs, base, base + |m| - HEADER, k, free);
    forall j | 0 <= j < |cs| ensures HeaderIs(r, base, cs[j], Next(cs, j)) {
      FlagHeaderAt(m, r, base, bs, k, free, j);
    }
    AllHeaders(r, base, cs);
  }

  lemma SplitHeader(m: seq<u8>, r: seq<u8>, base: nat, bs: seq<Block>, k: nat, want: nat, j: nat)
    requires Represents(m, base, bs) && k < |bs| && |r| == |m| && want + HEADER < bs[k].size
    requires forall i | 0 <= i < |m| && !(bs[k].addr - base <= i < End(bs[k]) - base) :: r[i] == m[i]
    requires HeaderIs(r, base, Block(bs[k].addr, want, false), bs[k].addr + want)
    requires HeaderIs(r, base, Block(bs[k].addr + want, bs[k].size - want, true), Next(bs, k))
    ensures var cs := Taken(bs, k, want); j < |cs| ==> HeaderIs(r, base, cs[j], Next(cs, j))
  {
    hide Represents, HeaderIs;
    var cs := Taken(bs, k, want);
    if j < k {
      OtherHeaders(m, r, base, bs, k, j);
      assert cs[j] == bs[j] && Next(cs, j) == Next(bs, j);
    } else if k + 1 < j < |cs| {
      OtherHeaders(m, r, base, bs, k, j - 1);
      assert cs[j] == bs[j - 1] && Next(cs, j) == Next(bs, j - 1);
    } else {
      assert Next(cs, k) == bs[k].addr + want && Next(cs, k + 1) == Next(bs, k);
    }
  }

  // Writing the headers of the two parts splits block k.
  lemma SplitRepresents(m: seq<u8>, r: seq<u8>, base: nat, bs: seq<Block>, k: nat, want: nat)
    requires Represents(m, base, bs) && k < |bs| && |r| == |m|
    requires HEADER <= want && want + HEADER < bs[k].size
    requires forall i | 0 <= i < |m| && !(bs[k].addr - base <= i < End(bs[k]) - base) :: r[i] == m[i]
    requires HeaderIs(r, base, Block(bs[k].addr, want, false), bs[k].addr + want)
    requires HeaderIs(r, base, Block(bs[k].addr + want, bs[k].size - want, true), Next(bs, k))
    ensures Represents(r, base, Taken(bs, k, want))
  {
    hide Represents, HeaderIs, Tiles, Taken;
    var cs := Taken(bs, k, want);
    BlockFacts(m, base, bs, k);
    TakenTiles(bs, base, base + |m| - HEADER, k, want);
    forall j | 0 <= j < |cs| ensures HeaderIs(r, base, cs[j], Next(cs, j)) {
      SplitHeader(m, r, base, bs, k, want, j);
    }
    AllHeaders(r, base, cs);
  }

  // The stores of a split, in the order of the code.
  function SplitStores(m: seq<u8>, base: nat, o: nat, want: u32): seq<u8>
    requires o + HEADER <= |m| && HEADER <= want && want + HEADER <= Get32(m, o)
    requires o + Get32(m, o) <= |m| && base + o + want < U32
  {
    var m1 := Put32(m, o + want, Get32(m, o) - want);
    var m2 := Put32(m1, o + want + 8, 1);
    var m3 := Put32(m2, o + want + 4, Get32(m, o + 4));
    Put32(Put32(m3, o, want), o + 4, base + o + want)
  }

  // The headers they leave behind, at offset o in the heap.
  lemma SplitBytes(m: seq<u8>, base: nat, o: nat, want: u32)
    requires o + HEADER <= |m| && Get32(m, o + 8) == 0
    requires HEADER <= want && want + HEADER < Get32(m, o) && o + Get32(m, o) <= |m| && base + o + want < U32
    ensures var r := SplitStores(m, base, o, want);
      && |r| == |m|
      && HeaderIs(r, base, Block(base + o, want, false), base + o + want)
      && HeaderIs(r, base, Block(base + o + want, Get32(m, o) - want, true), Get32(m, o + 4))
      && forall i | 0 <= i < |m| && !(o <= i < o + HEADER) && !(o + want <= i < o + want + HEADER) :: r[i] == m[i]
  {
    hide Put32, Get32;
  }

  lemma SplitDone(m: seq<u8>, r: seq<u8>, base: nat, bs: seq<Block>, k: nat, o: nat, want: u32)
    requires Represents(m, base, bs) && k < |bs| && bs[k].addr == base + o && End(bs[k]) <= base + |m| <= U32
    requires HEADER <= want && want + HEADER < bs[k].size && o + HEADER <= |m|
    requires Get32(m, o) == bs[k].size && Get32(m, o + 8) == 0 && r == SplitStores(m, base, o, want)
    ensures Represents(r, base, Taken(bs, k, want)) && |r| == |m|
    ensures forall i | o + HEADER <= i < o + want :: r[i] == m[i]
  {
    hide Represents, Tiles, Put32, Get32, SplitStores, Taken;
    BlockFacts(m, base, bs, k);
    assert Next(bs, k) == Get32(m, o + 4);
    SplitBytes(m, base, o, want);
    SplitRepresents(m, r, base, bs, k, want);
  }

  lemma Adjacent(bs: seq<Block>, lo: nat, hi: nat, k: nat)
    requires Tiles(bs, lo, hi) && k < |bs|
    ensures Next(bs, k) == if k + 1 < |bs| then bs[k].addr + bs[k].size else 0
  {
    assert k + 1 < |bs| ==> End(bs[k]) == bs[k + 1].addr;
  }

  lemma WordBytes(m: seq<u8>, o: nat)
    requires o + 4 <= |m|
    ensures Get32(m, o) == m[o] as int + 256 * m[o + 1] as int + 65536 * m[o + 2] as int + 16777216 * m[o + 3] as int
    ensures Get32(m, o) == 0 <==> m[o] == 0 && m[o + 1] == 0 && m[o + 2] == 0 && m[o + 3] == 0
  {
  }

  // The header byte by byte: size, address of the next header or 0, and a word that is not 0 while free.
  lemma HeaderLayout(m: seq<u8>, base: nat, bs: seq<Block>, k: nat, o: nat)
    requires Represents(m, base, bs) && k < |bs| && base + o == bs[k].addr && o + 12 <= |m|
    ensures bs[k].size
            == m[o] as int + 256 * m[o + 1] as int + 65536 * m[o + 2] as int + 16777216 * m[o + 3] as int
    ensures (if k + 1 < |bs| then bs[k].addr + bs[k].size else 0)
            == m[o + 4] as int + 256 * m[o + 5] as int + 65536 * m[o + 6] as int + 16777216 * m[o + 7] as int
    ensures bs[k].free <==> !(m[o + 8] == 0 && m[o + 9] == 0 && m[o + 10] == 0 && m[o + 11] == 0)
  {
    hide Represents, Tiles, Get32, Next;
    BlockFacts(m, base, bs, k);
    Adjacent(bs, base, base + |m| - HEADER, k);
    WordBytes(m, o);
    WordBytes(m, o + 4);
    WordBytes(m, o + 8);
  }

  // Splitting does not depend on the free flag, and without a split only the flag changes.
  lemma TakenFlag(bs: seq<Block>, k: nat, want: nat)
    requires k < |bs| && want <= bs[k].size
    ensures var cs := bs[k := Block(bs[k].addr, bs[k].size, false)];
      && Taken(cs, k, want) == Taken(bs, k, want)
      && (bs[k].size <= want + HEADER ==> Taken(bs, k, want) == cs)
  {
    var cs := bs[k := Block(bs[k].addr, bs[k].size, false)];
    assert cs[..k] == bs[..k] && cs[k + 1..] == bs[k + 1..];
  }

  lemma PayloadWrite(m: seq<u8>, r: seq<u8>, base: nat, bs: seq<Block>, k: nat)
    requires Represents(m, base, bs) && k < |bs| && |r| == |m|
    requires forall i | 0 <= i < |m| && !(bs[k].addr + HEADER <= i + base < End(bs[k])) :: r[i] == m[i]
    ensures Represents(r, base, bs)
  {
    hide Represents, Tiles;
    BlockFacts(m, base, bs, k);
    forall j | 0 <= j < |bs| ensures HeaderIs(r, base, bs[j], Next(bs, j)) {
      if j != k {
        OtherHeaders(m, r, base, bs, k, j);
      } else {
        Get32Same(m, r, bs[k].addr - base);
        Get32Same(m, r, bs[k].addr - base + 4);
        Get32Same(m, r, bs[k].addr - base + 8);
      }
    }
    AllHeaders(r, base, bs);
  }

  // What a scan reads in the header of block k.
  lemma BlockHeader(m: seq<u8>, base: nat, bs: seq<Block>, k: nat)
    requires Represents(m, base, bs) && k < |bs|
    ensures base <= bs[k].addr && bs[k].addr - base + HEADER <= |m|
    ensures Get32(m, bs[k].addr - base) == bs[k].size && Get32(m, bs[k].addr - base + 4) == Next(bs, k)
    ensures Get32(m, bs[k].addr - base + 8) != 0 <==> bs[k].free
    ensures End(bs[k]) + HEADER <= base + |m| && (k + 1 < |bs| ==> bs[k + 1].addr >= base)
  {
    hide Represents, Tiles;
    BlockFacts(m, base, bs, k);
    Inside(bs, base, base + |m| - HEADER, k);
    if k + 1 < |bs| {
      Inside(bs, base, base + |m| - HEADER, k + 1);
    }
  }

  lemma FirstFitStep(bs: seq<Block>, want: nat, k: nat)
    requires k < |bs|
    ensures FirstFit(bs, want, k) == if Fits(bs[k], want) then k else FirstFit(bs, want, k + 1)
  {
  }

  // A taken block leaves a well-formed list exactly when no header was split.
  lemma TakenOutcome(m: seq<u8>, r: seq<u8>, base: nat, bs: seq<Block>, n: u32, k: nat)
    requires 0 < base && Represents(m, base, bs) && k < |bs| && |r| == |m| && FirstFit(bs, Want(n), 0) == k
    requires base <= bs[k].addr && bs[k].addr - base + HEADER <= |m|
    requires forall i | 0 <= i < |m| && !(bs[k].addr - base <= i < End(bs[k]) - base) :: r[i] == m[i]
    requires HEADER <= Want(n) || bs[k].size <= Want(n) + HEADER ==> Represents(r, base, Taken(bs, k, Want(n)))
    requires Want(n) < HEADER && bs[k].size > Want(n) + HEADER ==> Get32(r, bs[k].addr - base) == Want(n)
    ensures WellFormed(r, base) <==> !SplitsHeader(bs, n)
    ensures !SplitsHeader(bs, n) <==> HEADER <= Want(n) || bs[k].size <= Want(n) + HEADER
  {
    hide Represents, Taken, Get32;
    if SplitsHeader(bs, n) {
      ShortBlockBreaks(m, r, base, bs, k);
    }
  }

  class Heap {
    const base: nat       // where the heap starts
    const mem: array<u8>  // the bytes of the heap
    ghost var blocks: seq<Block>

    ghost predicate Valid()
      reads this, mem
    {
      0 < base && base + mem.Length <= U32 && Represents(mem[..], base, blocks)
    }

    ghost function Now(): State
      reads this, mem
    {
      State(mem[..], blocks)
    }

    // init_malloc: one free block; its size leaves out a header at the end of the heap.
    constructor (start: nat, length: nat)
      requires 0 < start && start + length <= U32 && 2 * HEADER <= length
      ensures Valid() && fresh(mem) && base == start && mem.Length == length
      ensures blocks == [Block(start, length - HEADER, true)]
    {
      base := start;
      mem := new u8[length];
      blocks := [Block(start, length - HEADER, true)];
      new;
      Store32(mem, 0, length - HEADER);
      Store32(mem, 4, 0);
      Store32(mem, 8, 1);
      Get32Same(Put32(mem[..], 0, length - HEADER), mem[..], 0);
    }

    // The stores that give the end of a block to a new free block, whatever they overlap.
    method StoreSplit(current: u32, want: u32)
      requires base <= current && current - base + HEADER <= mem.Length && base + mem.Length <= U32
      requires want + HEADER < Get32(mem[..], current - base) <= mem.Length - (current - base)
      modifies mem
      ensures HEADER <= want ==> mem[..] == SplitStores(old(mem[..]), base, current - base, want)
      ensures want < HEADER ==> Get32(mem[..], current - base) == want
      ensures forall i | 0 <= i < mem.Length &&
                !(current - base <= i < current - base + old(Get32(mem[..], current - base))) :: mem[i] == old(mem[i])
    {
      hide Put32, Get32;
      var nextBlock := current + want;
      var size := Load32(mem, current - base);
      Store32(mem, nextBlock - base, size - want);
      Store32(mem, nextBlock + 8 - base, 1);
      var next := Load32(mem, current + 4 - base);
      Store32(mem, nextBlock + 4 - base, next);
      Store32(mem, current - base, want);
      Store32(mem, current + 4 - base, nextBlock);
    }

    // Splitting block k after it was marked as taken.
    method Split(current: u32, want: u32, ghost k: nat)
      requires Valid() && k < |blocks| && blocks[k].addr == current && want + HEADER < blocks[k].size
      requires base <= current && End(blocks[k]) <= base + mem.Length && current - base + HEADER <= mem.Length
      requires Get32(mem[..], current - base) == blocks[k].size && Get32(mem[..], current - base + 8) == 0
      modifies mem, `blocks
      ensures forall i | 0 <= i < mem.Length && !(current - base <= i < old(End(blocks[k])) - base) ::
                mem[i] == old(mem[i])
      ensures HEADER <= want ==> Valid() && blocks == old(Taken(blocks, k, want))
      ensures HEADER <= want ==> forall i | current + HEADER <= i + base < current + want :: mem[i] == old(mem[i])
      ensures want < HEADER ==> Get32(mem[..], current - base) == want
    {
      hide Represents, Tiles, Put32, Get32, SplitStores, Taken;
      if want >= HEADER {
        ghost var m, o := mem[..], current - base;
        SplitDone(m, SplitStores(m, base, o, want), base, blocks, k, o, want);
        blocks := Taken(blocks, k, want);
      }
      StoreSplit(current, want);
    }

    // Marking a block as taken or free touches no other header field and no payload.
    method SetFlag(current: u32, free: bool, ghost k: nat)
      requires Valid() && k < |blocks| && blocks[k].addr == current
      modifies mem, `blocks
      ensures Valid() && blocks == old(blocks[k := Block(blocks[k].addr, blocks[k].size, free)])
      ensures base <= current && current - base + HEADER <= mem.Length
      ensures Get32(mem[..], current - base + 8) == (if free then 1 else 0)
      ensures forall i | 0 <= i < mem.Length && !(current - base + 8 <= i < current - base + 12) ::
                mem[i] == old(mem[i])
    {
      hide Represents, Tiles, Put32, Get32;
      ghost var m := mem[..];
      BlockFacts(m, base, blocks, k);
      Store32(mem, current + 8 - base, if free then 1 else 0);
      FlagRepresents(m, mem[..], base, blocks, k, free);
      blocks := blocks[k := Block(blocks[k].addr, blocks[k].size, free)];
    }

    // The part of malloc that takes the block found, for `want` bytes with the header.
    method Take(current: u32, want: u32, ghost k: nat)
      requires Valid() && k < |blocks| && blocks[k].addr == current && Fits(blocks[k], want)
      modifies mem, `blocks
      ensures forall i | 0 <= i < mem.Length && !(current - base <= i < old(End(blocks[k])) - base) ::
                mem[i] == old(mem[i])
      ensures HEADER <= want || old(blocks[k].size) <= want + HEADER ==>
                && Valid() && blocks == old(Taken(blocks, k, want))
                && forall i | current + HEADER <= i + base < current + want :: mem[i] == old(mem[i])
      ensures want < HEADER && old(blocks[k].size) > want + HEADER ==>
                base <= current && current - base + 4 <= mem.Length && Get32(mem[..], current - base) == want
    {
      hide Represents, Tiles, Get32, Taken;
      BlockFacts(mem[..], base, blocks, k);
      Inside(blocks, base, base + mem.Length - HEADER, k);
      TakenFlag(blocks, k, want);
      SetFlag(current, false, k);
      BlockFacts(mem[..], base, blocks, k);
      var size := Load32(mem, current - base);
      if size > (want + HEADER) % U32 {
        Split(current, want, k);
      }
    }

    // malloc: a first-fit scan along the next fields.
    method Malloc(n: u32) returns (p: u32)
      requires Valid()
      modifies mem, `blocks
      ensures p == MallocResult(old(blocks), n)
      ensures n + 12 < U32 ==> (p == 0 <==> AllTooSmall(old(blocks), n + 12))
      ensures !SplitsHeader(old(blocks), n) ==> Valid() && blocks == AfterMalloc(old(blocks), n)
      ensures WellFormed(mem[..], base) <==> !SplitsHeader(old(blocks), n)
      ensures p == 0 ==> mem[..] == old(mem[..])
      ensures var k := FirstFit(old(blocks), Want(n), 0);
        k < |old(blocks)| ==>
          forall i | 0 <= i < mem.Length && !(old(blocks)[k].addr <= i + base < End(old(blocks)[k])) ::
            mem[i] == old(mem[i])
      ensures p != 0 && n + HEADER < U32 ==>
                forall i | 0 <= i < mem.Length && p <= i + base < p + n :: mem[i] == old(mem[i])
      ensures !SplitsHeader(old(blocks), n) ==> Steps(base, old(Now()), Request(Op.Malloc(n)), Now())
    {
      hide Represents, Tiles, Taken, HeaderIs, Get32, AllTooSmall;
      MallocFails(blocks, n);
      ghost var m, k := mem[..], 0;
      var current, want := base, Want(n);
      BlockFacts(m, base, blocks, 0);
      while current != 0
        invariant k <= |blocks| && if k < |blocks| then current == blocks[k].addr >= base else current == 0
        invariant FirstFit(blocks, want, k) == FirstFit(blocks, want, 0)
        invariant Valid() && mem[..] == m && blocks == old(blocks)
        decreases |blocks| - k
      {
        BlockHeader(m, base, blocks, k);
        FirstFitStep(blocks, want, k);
        var free := Load32(mem, current + 8 - base);
        var size := Load32(mem, current - base);
        if free != 0 && size >= want {
          Take(current, want, k);
          TakenOutcome(m, mem[..], base, old(blocks), n, k);
          p := current + HEADER;
          return;
        }
        current := Load32(mem, current + 4 - base);
        k := k + 1;
      }
      p := 0;
    }

    // free: marks the block before ptr. Freeing a free block again changes nothing.
    method Free(p: u32)
      requires Valid() && (p == 0 || IsPayload(blocks, p))
      modifies mem, `blocks
      ensures Valid() && blocks == AfterFree(old(blocks), p)
      ensures forall i | 0 <= i < mem.Length && !(p - 4 <= i + base < p) :: mem[i] == old(mem[i])
      ensures Steps(base, old(Now()), Request(Op.Free(p)), Now())
    {
      hide Represents, Tiles, Get32;
      if p == 0 {
        assert AfterFree(blocks, 0) == blocks;
        return;
      }
      ghost var k :| 0 <= k < |blocks| && blocks[k].addr + HEADER == p;
      BlockFacts(mem[..], base, blocks, k);
      FreeIsFlag(blocks, base, base + mem.Length - HEADER, k);
      SetFlag(p - HEADER, true, k);
    }

    // A client may write any byte of a live payload; the list does not notice.
    method Write(a: nat, v: u8, ghost k: nat)
      requires Valid() && k < |blocks| && !blocks[k].free && blocks[k].addr + HEADER <= a < End(blocks[k])
      modifies mem
      ensures Valid() && base <= a < base + mem.Length && mem[..] == old(mem[..])[a - base := v]
      ensures Steps(base, old(Now()), Store(a, v), Now())
    {
      hide Represents, Tiles, Get32;
      ghost var m := mem[..];
      BlockHeader(m, base, blocks, k);
      mem[a - base] := v;
      PayloadWrite(m, mem[..], base, blocks, k);
    }
  }
}

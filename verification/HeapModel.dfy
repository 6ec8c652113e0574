/** The block list of the kernel allocator as a value, and what holds over every run of malloc and free. */
module HeapModel {
  import opened Machine

  const HEADER: nat := 12  // sizeof(MemBlock)

  // A block, its header included: size counts the 12 header bytes.
  datatype Block = Block(addr: nat, size: nat, free: bool)

  function End(b: Block): nat {
    b.addr + b.size
  }

  // The blocks, in address order and without gaps, fill [lo, hi), and each has room for its header.
  ghost predicate Tiles(bs: seq<Block>, lo: nat, hi: nat) {
    && |bs| > 0 && bs[0].addr == lo && End(bs[|bs| - 1]) == hi
    && (forall i | 0 <= i < |bs| :: bs[i].size >= HEADER)
    && (forall i | 0 <= i < |bs| - 1 :: End(bs[i]) == bs[i + 1].addr)
  }

  predicate Fits(b: Block, want: nat) {
    b.free && b.size >= want
  }

  // The position of the lowest free block with at least `want` bytes, or the number of blocks.
  function FirstFit(bs: seq<Block>, want: nat, k: nat): (r: nat)
    requires k <= |bs|
    ensures k <= r <= |bs| && (r < |bs| ==> Fits(bs[r], want))
    ensures forall j | k <= j < r :: !Fits(bs[j], want)
    decreases |bs| - k
  {
    if k == |bs| || Fits(bs[k], want) then k else FirstFit(bs, want, k + 1)
  }

  // Takes block k for `want` bytes and splits off the rest when it is more than a header.
  function Taken(bs: seq<Block>, k: nat, want: nat): seq<Block>
    requires k < |bs| && want <= bs[k].size
  {
    var b := bs[k];
    if b.size > want + HEADER
    then bs[..k] + [Block(b.addr, want, false), Block(b.addr + want, b.size - want, true)] + bs[k + 1..]
    else bs[k := Block(b.addr, b.size, false)]
  }

  // The bytes a request takes: the header is added in 32-bit arithmetic.
  function Want(n: u32): u32 {
    (n + HEADER) % U32
  }

  function AfterMalloc(bs: seq<Block>, n: u32): seq<Block> {
    var k := FirstFit(bs, Want(n), 0);
    if k == |bs| then bs else Taken(bs, k, Want(n))
  }

  // What malloc returns: the payload of the first fit, or NULL.
  function MallocResult(bs: seq<Block>, n: u32): nat {
    var k := FirstFit(bs, Want(n), 0);
    if k == |bs| then 0 else bs[k].addr + HEADER
  }

  function AfterFree(bs: seq<Block>, p: nat): (r: seq<Block>)
    ensures |r| == |bs|
  {
    seq(|bs|, i requires 0 <= i < |bs| => if bs[i].addr + HEADER == p then bs[i].(free := true) else bs[i])
  }

  predicate IsPayload(bs: seq<Block>, p: nat) {
    exists i | 0 <= i < |bs| :: bs[i].addr + HEADER == p
  }

  // The size addition wrapped around and the block found is split inside its own header.
  predicate SplitsHeader(bs: seq<Block>, n: u32) {
    n + HEADER >= U32
    && var k := FirstFit(bs, Want(n), 0); k < |bs| && bs[k].size > Want(n) + HEADER
  }

  // ---------- Tiling ----------

  lemma {:induction false} Ordered(bs: seq<Block>, lo: nat, hi: nat, i: nat, j: nat)
    requires Tiles(bs, lo, hi) && i < j < |bs|
    ensures End(bs[i]) <= bs[j].addr
    decreases j
  {
    if i < j - 1 {
      Ordered(bs, lo, hi, i, j - 1);
    }
  }

  lemma Inside(bs: seq<Block>, lo: nat, hi: nat, i: nat)
    requires Tiles(bs, lo, hi) && i < |bs|
    ensures lo <= bs[i].addr && End(bs[i]) <= hi
  {
    if 0 < i {
      Ordered(bs, lo, hi, 0, i);
    }
    if i < |bs| - 1 {
      Ordered(bs, lo, hi, i, |bs| - 1);
    }
  }

  // Payloads lie inside the heap, are pairwise disjoint and meet no header, their own or another's.
  lemma PayloadsDisjoint(bs: seq<Block>, lo: nat, hi: nat, i: nat, j: nat, a: nat)
    requires Tiles(bs, lo, hi) && i < |bs| && j < |bs| && bs[i].addr + HEADER <= a < End(bs[i])
    ensures lo <= a < hi
    ensures i != j ==> !(bs[j].addr <= a < End(bs[j]))
    ensures !(bs[j].addr <= a < bs[j].addr + HEADER)
  {
    Inside(bs, lo, hi, i);
    if i < j {
      Ordered(bs, lo, hi, i, j);
    } else if j < i {
      Ordered(bs, lo, hi, j, i);
    }
  }

  function TotalSize(bs: seq<Block>): nat {
    if bs == [] then 0 else bs[0].size + TotalSize(bs[1..])
  }

  // Sizes add up to the heap; a scan of the list takes at most heap / header steps.
  lemma {:induction false} Conservation(bs: seq<Block>, lo: nat, hi: nat)
    requires Tiles(bs, lo, hi)
    ensures TotalSize(bs) == hi - lo && HEADER * |bs| <= hi - lo
    decreases |bs|
  {
    if |bs| == 1 {
      assert TotalSize(bs[1..]) == 0;
    } else {
      var rest := bs[1..];
      assert forall i | 0 <= i < |rest| - 1 :: End(rest[i]) == rest[i + 1].addr;
      Conservation(rest, End(bs[0]), hi);
    }
  }

  lemma TakenTiles(bs: seq<Block>, lo: nat, hi: nat, k: nat, want: nat)
    requires Tiles(bs, lo, hi) && k < |bs| && HEADER <= want <= bs[k].size
    ensures Tiles(Taken(bs, k, want), lo, hi)
  {
    var r, b := Taken(bs, k, want), bs[k];
    if b.size > want + HEADER {
      assert forall i | 0 <= i < k :: r[i] == bs[i];
      assert r[k] == Block(b.addr, want, false) && r[k + 1] == Block(b.addr + want, b.size - want, true);
      assert forall i | k + 1 < i < |r| :: r[i] == bs[i - 1];
      forall i | 0 <= i < |r| - 1 ensures End(r[i]) == r[i + 1].addr {
        if i < k {
          assert End(bs[i]) == bs[i + 1].addr;
        } else if i > k {
          assert End(bs[i - 1]) == bs[i].addr;
        }
      }
    }
  }

  lemma FlagTiles(bs: seq<Block>, lo: nat, hi: nat, k: nat, free: bool)
    requires Tiles(bs, lo, hi) && k < |bs|
    ensures Tiles(bs[k := Block(bs[k].addr, bs[k].size, free)], lo, hi)
  {
  }

  // A request that wrapped around but splits nothing takes a whole block.
  lemma MallocTiles(bs: seq<Block>, lo: nat, hi: nat, n: u32)
    requires Tiles(bs, lo, hi) && !SplitsHeader(bs, n)
    ensures Tiles(AfterMalloc(bs, n), lo, hi)
  {
    var k := FirstFit(bs, Want(n), 0);
    if k < |bs| {
      if n + HEADER < U32 {
        TakenTiles(bs, lo, hi, k, Want(n));
      } else {
        assert Taken(bs, k, Want(n)) == bs[k := Block(bs[k].addr, bs[k].size, false)];
      }
    }
  }

  lemma FreeTiles(bs: seq<Block>, lo: nat, hi: nat, p: nat)
    requires Tiles(bs, lo, hi)
    ensures Tiles(AfterFree(bs, p), lo, hi)
  {
  }

  lemma FirstFitNotAbove(bs: seq<Block>, want: nat, i: nat, k: nat)
    requires k <= i < |bs| && Fits(bs[i], want)
    ensures FirstFit(bs, want, k) <= i
  {
  }

  // malloc fails exactly when no free block is large enough, and otherwise takes the lowest that is.
  lemma MallocLowest(bs: seq<Block>, lo: nat, hi: nat, n: u32)
    requires Tiles(bs, lo, hi)
    ensures MallocResult(bs, n) == 0 <==> forall b | b in bs :: !Fits(b, Want(n))
    ensures forall b | b in bs && Fits(b, Want(n)) :: MallocResult(bs, n) <= b.addr + HEADER
  {
    var k := FirstFit(bs, Want(n), 0);
    forall b | b in bs && Fits(b, Want(n)) ensures k < |bs| && bs[k].addr <= b.addr {
      var i :| 0 <= i < |bs| && bs[i] == b;
      FirstFitNotAbove(bs, Want(n), i, 0);
      if k < i {
        Ordered(bs, lo, hi, k, i);
      }
    }
    assert k < |bs| ==> bs[k] in bs;
  }

  // No free block has so many bytes.
  ghost predicate AllTooSmall(bs: seq<Block>, size: nat) {
    forall b | b in bs && b.free :: b.size < size
  }

  // In terms of the size asked for, a header of 12 bytes with it: NULL means that every free block is too small.
  lemma MallocFails(bs: seq<Block>, n: u32)
    ensures n + 12 < U32 ==> (MallocResult(bs, n) == 0 <==> AllTooSmall(bs, n + 12))
  {
    var k := FirstFit(bs, Want(n), 0);
    if k < |bs| {
      assert bs[k] in bs;
    } else {
      assert forall j | 0 <= j < |bs| :: !Fits(bs[j], Want(n));
    }
  }

  // Otherwise the lowest free block with that many bytes is handed out. It is cut to exactly that size when a
  // header and more would be left over, and a free block of the rest then follows; else it keeps its size.
  lemma MallocTakes(bs: seq<Block>, n: u32, k: nat)
    requires n + 12 < U32 && k < |bs| && bs[k].free && bs[k].size >= n + 12
    requires forall j | 0 <= j < k :: bs[j].free ==> bs[j].size < n + 12
    ensures MallocResult(bs, n) == bs[k].addr + 12
    ensures bs[k].size > n + 24 ==>
              AfterMalloc(bs, n) == bs[..k] + [Block(bs[k].addr, n + 12, false),
                                               Block(bs[k].addr + n + 12, bs[k].size - (n + 12), true)] + bs[k + 1..]
    ensures bs[k].size <= n + 24 ==> AfterMalloc(bs, n) == bs[k := Block(bs[k].addr, bs[k].size, false)]
  {
    FirstFitNotAbove(bs, Want(n), k, 0);
    var i := FirstFit(bs, Want(n), 0);
    assert i <= k && Fits(bs[i], Want(n));
    hide FirstFit;
  }

  // Only the freed block changes.
  lemma FreeIsFlag(bs: seq<Block>, lo: nat, hi: nat, k: nat)
    requires Tiles(bs, lo, hi) && k < |bs|
    ensures AfterFree(bs, bs[k].addr + HEADER) == bs[k := Block(bs[k].addr, bs[k].size, true)]
  {
    forall i | 0 <= i < |bs| && i != k ensures bs[i].addr != bs[k].addr {
      if i < k {
        Ordered(bs, lo, hi, i, k);
      } else {
        Ordered(bs, lo, hi, k, i);
      }
    }
  }

  // ---------- Runs ----------

  datatype Op = Malloc(n: u32) | Free(p: u32)

  // A caller frees NULL or the payload of a block, and asks for no size that splits a header.
  ghost predicate Legal(bs: seq<Block>, op: Op) {
    match op
    case Malloc(n) => !SplitsHeader(bs, n)
    case Free(p) => p == 0 || IsPayload(bs, p)
  }

  function After(bs: seq<Block>, op: Op): seq<Block> {
    match op
    case Malloc(n) => AfterMalloc(bs, n)
    case Free(p) => AfterFree(bs, p)
  }

  function AfterAll(bs: seq<Block>, ops: seq<Op>): seq<Block>
    decreases |ops|
  {
    if ops == [] then bs else AfterAll(After(bs, ops[0]), ops[1..])
  }

  ghost predicate LegalRun(bs: seq<Block>, ops: seq<Op>)
    decreases |ops|
  {
    ops == [] || (Legal(bs, ops[0]) && LegalRun(After(bs, ops[0]), ops[1..]))
  }

  lemma {:induction false} RunTiles(bs: seq<Block>, lo: nat, hi: nat, ops: seq<Op>)
    requires Tiles(bs, lo, hi) && LegalRun(bs, ops)
    ensures Tiles(AfterAll(bs, ops), lo, hi)
    decreases |ops|
  {
    if ops != [] {
      match ops[0] {
        case Malloc(n) => MallocTiles(bs, lo, hi, n);
        case Free(p) => FreeTiles(bs, lo, hi, p);
      }
      RunTiles(After(bs, ops[0]), lo, hi, ops[1..]);
    }
  }

  // Block c lies inside a block of bs.
  ghost predicate Within(c: Block, bs: seq<Block>) {
    exists b :: b in bs && b.addr <= c.addr && End(c) <= End(b)
  }

  // Address a begins a block of bs.
  ghost predicate Begins(a: nat, bs: seq<Block>) {
    exists b :: b in bs && b.addr == a
  }

  // Every block of cs lies inside one of bs, and every block of bs still begins a block of cs.
  ghost predicate Refines(cs: seq<Block>, bs: seq<Block>) {
    && (forall c {:trigger Within(c, bs)} | c in cs :: Within(c, bs))
    && (forall a {:trigger Begins(a, cs)} | Begins(a, bs) :: Begins(a, cs))
  }

  lemma RefinesTrans(ds: seq<Block>, cs: seq<Block>, bs: seq<Block>)
    requires Refines(ds, cs) && Refines(cs, bs)
    ensures Refines(ds, bs)
  {
    forall d | d in ds ensures Within(d, bs) {
      assert Within(d, cs);
      var c :| c in cs && c.addr <= d.addr && End(d) <= End(c);
      assert Within(c, bs);
    }
    forall a | Begins(a, bs) ensures Begins(a, ds) {
      assert Begins(a, cs);
    }
  }

  lemma RefinesSelf(bs: seq<Block>)
    ensures Refines(bs, bs)
  {
  }

  lemma TakenRefines(bs: seq<Block>, k: nat, want: nat)
    requires k < |bs| && want <= bs[k].size
    ensures Refines(Taken(bs, k, want), bs)
  {
    var r, b := Taken(bs, k, want), bs[k];
    forall c | c in r ensures Within(c, bs) {
      assert c in bs || (b.addr <= c.addr && End(c) <= End(b));
    }
    forall a | Begins(a, bs) ensures Begins(a, r) {
      var i :| 0 <= i < |bs| && bs[i].addr == a;
      var j := if i <= k then i else |r| - |bs| + i;
      assert r[j] in r && r[j].addr == a;
    }
  }

  lemma FreeRefines(bs: seq<Block>, p: nat)
    ensures Refines(AfterFree(bs, p), bs)
  {
    var r := AfterFree(bs, p);
    forall c | c in r ensures Within(c, bs) {
      var i :| 0 <= i < |r| && r[i] == c;
      assert bs[i] in bs && bs[i].addr <= c.addr && End(c) <= End(bs[i]);
    }
    forall a | Begins(a, bs) ensures Begins(a, r) {
      var i :| 0 <= i < |bs| && bs[i].addr == a;
      assert r[i] in r && r[i].addr == a;
    }
  }

  lemma StepRefines(bs: seq<Block>, op: Op)
    ensures Refines(After(bs, op), bs)
  {
    match op
    case Malloc(n) =>
      var k := FirstFit(bs, Want(n), 0);
      if k < |bs| {
        TakenRefines(bs, k, Want(n));
      } else {
        RefinesSelf(bs);
      }
    case Free(p) => FreeRefines(bs, p);
  }

  // Nothing coalesces: over a whole run boundaries stay and blocks only get smaller. This and the next two
  // lemmas hold of the lists after any operations; they are the code's lists as long as the run is legal.
  lemma {:induction false} RunRefines(bs: seq<Block>, ops: seq<Op>)
    ensures Refines(AfterAll(bs, ops), bs)
    decreases |ops|
  {
    hide Refines;
    if ops == [] {
      RefinesSelf(bs);
    } else {
      StepRefines(bs, ops[0]);
      RunRefines(After(bs, ops[0]), ops[1..]);
      RefinesTrans(AfterAll(bs, ops), After(bs, ops[0]), bs);
    }
  }

  // A request larger than every block fails now and in every later state.
  lemma TooLargeForever(bs: seq<Block>, ops: seq<Op>, n: u32)
    requires forall b | b in bs :: b.size < Want(n)
    ensures MallocResult(AfterAll(bs, ops), n) == 0
  {
    var r := AfterAll(bs, ops);
    RunRefines(bs, ops);
    forall i | 0 <= i < |r| ensures r[i].size < Want(n) {
      assert r[i] in r && Within(r[i], bs);
    }
  }

  // A pointer that was once a block's payload stays one, so freeing it again is harmless.
  lemma PayloadForever(bs: seq<Block>, ops: seq<Op>, p: nat)
    requires IsPayload(bs, p)
    ensures IsPayload(AfterAll(bs, ops), p)
  {
    var r := AfterAll(bs, ops);
    var i :| 0 <= i < |bs| && bs[i].addr + HEADER == p;
    RunRefines(bs, ops);
    hide AfterAll;
    assert bs[i] in bs && Begins(bs[i].addr, bs);
    assert Begins(bs[i].addr, r);
    var j :| 0 <= j < |r| && r[j].addr == bs[i].addr;
  }

  // ---------- Live blocks ----------

  lemma MallocKeepsLive(bs: seq<Block>, n: u32, b: Block)
    requires b in bs && !b.free
    ensures b in AfterMalloc(bs, n)
  {
    var k := FirstFit(bs, Want(n), 0);
    var i :| 0 <= i < |bs| && bs[i] == b;
    if k < |bs| {
      var r := Taken(bs, k, Want(n));
      if i < k {
        assert r[i] == b;
      } else {
        assert r[|r| - |bs| + i] == b;
      }
    }
  }

  // A live block keeps its place and size until it is freed.
  lemma {:induction false} LiveStays(bs: seq<Block>, ops: seq<Op>, b: Block)
    requires b in bs && !b.free && forall p | Free(p) in ops :: p != b.addr + HEADER
    ensures b in AfterAll(bs, ops)
    decreases |ops|
  {
    if ops != [] {
      match ops[0] {
        case Malloc(n) => MallocKeepsLive(bs, n, b);
        case Free(p) =>
          var i :| 0 <= i < |bs| && bs[i] == b;
          assert Free(p) in ops;
          assert AfterFree(bs, p)[i] == b;
      }
      assert forall op | op in ops[1..] :: op in ops;
      LiveStays(After(bs, ops[0]), ops[1..], b);
    }
  }

  // What malloc hands out: a live block of at least the wanted bytes that starts at the result.
  lemma MallocGives(bs: seq<Block>, n: u32)
    requires MallocResult(bs, n) != 0
    ensures exists b :: b in AfterMalloc(bs, n) && !b.free && b.addr + HEADER == MallocResult(bs, n)
                        && b.size >= Want(n)
  {
    var k := FirstFit(bs, Want(n), 0);
    assert AfterMalloc(bs, n)[k] in AfterMalloc(bs, n);
  }

  lemma TakenIsSmaller(bs: seq<Block>, lo: nat, hi: nat, n: u32, b: Block)
    requires Tiles(bs, lo, hi) && b in AfterMalloc(bs, n)
    ensures b.size <= hi - lo
  {
    var k := FirstFit(bs, Want(n), 0);
    if k < |bs| {
      Inside(bs, lo, hi, k);
    }
    if b in bs {
      var i :| 0 <= i < |bs| && bs[i] == b;
      Inside(bs, lo, hi, i);
    }
  }

  // A result other than NULL has room for the bytes asked for exactly when the size did not wrap around.
  lemma MallocRoom(bs: seq<Block>, lo: nat, hi: nat, n: u32)
    requires Tiles(bs, lo, hi) && 0 < lo && hi <= U32 && MallocResult(bs, n) != 0
    ensures n + HEADER < U32 <==>
            exists b :: b in AfterMalloc(bs, n) && b.addr + HEADER == MallocResult(bs, n) && b.size >= n + HEADER
  {
    hide Tiles, AfterMalloc, MallocResult;
    if n + HEADER < U32 {
      MallocGives(bs, n);
    } else {
      forall b | b in AfterMalloc(bs, n) ensures b.size < U32 {
        TakenIsSmaller(bs, lo, hi, n, b);
      }
    }
  }

  // An input that breaks the list: the largest size, while a block of more than 23 bytes is the first free one.
  lemma LargestSizeSplitsHeader(addr: nat, size: nat)
    requires size > 23
    ensures SplitsHeader([Block(addr, size, true)], U32 - 1)
  {
    assert FirstFit([Block(addr, size, true)], Want(U32 - 1), 0) == 0;
  }

  // Once a block that fits is free again, malloc finds it or one below it.
  lemma FreedIsFound(bs: seq<Block>, lo: nat, hi: nat, b: Block, want: nat)
    requires Tiles(bs, lo, hi) && b in bs && b.size >= want
    ensures var later := AfterFree(bs, b.addr + HEADER);
      var k := FirstFit(later, want, 0);
      k < |later| && later[k].addr <= b.addr
  {
    var i :| 0 <= i < |bs| && bs[i] == b;
    var later := AfterFree(bs, b.addr + HEADER);
    FreeTiles(bs, lo, hi, b.addr + HEADER);
    assert Fits(later[i], want) && later[i].addr == b.addr;
    FirstFitNotAbove(later, want, i, 0);
    var k := FirstFit(later, want, 0);
    if k < i {
      Ordered(later, lo, hi, k, i);
    }
  }

  // The same for a live block that is freed only after a run.
  lemma FreedLaterIsFound(bs: seq<Block>, lo: nat, hi: nat, ops: seq<Op>, b: Block, n: u32)
    requires Tiles(bs, lo, hi) && LegalRun(bs, ops)
    requires b in bs && !b.free && b.size >= Want(n) && forall p | Free(p) in ops :: p != b.addr + HEADER
    ensures 0 < MallocResult(AfterFree(AfterAll(bs, ops), b.addr + HEADER), n) <= b.addr + HEADER
  {
    LiveStays(bs, ops, b);
    RunTiles(bs, lo, hi, ops);
    FreedIsFound(AfterAll(bs, ops), lo, hi, b, Want(n));
  }

  // Freeing a block from malloc(n), whatever happened meanwhile, lets malloc(n) succeed at an address no higher.
  lemma Reuse(bs: seq<Block>, lo: nat, hi: nat, n: u32, ops: seq<Op>)
    requires Tiles(bs, lo, hi) && !SplitsHeader(bs, n) && MallocResult(bs, n) != 0
    requires LegalRun(AfterMalloc(bs, n), ops) && forall p | Free(p) in ops :: p != MallocResult(bs, n)
    ensures var p := MallocResult(bs, n);
      var later := AfterFree(AfterAll(AfterMalloc(bs, n), ops), p);
      0 < MallocResult(later, n) <= p
  {
    hide Tiles, AfterMalloc, AfterAll, LegalRun, AfterFree, MallocResult;
    MallocGives(bs, n);
    var b :| b in AfterMalloc(bs, n) && !b.free && b.addr + HEADER == MallocResult(bs, n) && b.size >= Want(n);
    MallocTiles(bs, lo, hi, n);
    FreedLaterIsFound(AfterMalloc(bs, n), lo, hi, ops, b, n);
  }

  // ---------- The bytes of live payloads ----------

  datatype State = State(mem: seq<u8>, blocks: seq<Block>)

  datatype Call = Request(op: Op) | Store(a: nat, v: u8)

  predicate InPayload(b: Block, a: nat) {
    b.addr + HEADER <= a < End(b)
  }

  // The addresses that malloc or free may write: the block found, or the flag of the block freed.
  predicate Touches(bs: seq<Block>, op: Op, a: nat) {
    match op
    case Malloc(n) => var k := FirstFit(bs, Want(n), 0); k < |bs| && bs[k].addr <= a < End(bs[k])
    case Free(p) => p - 4 <= a < p
  }

  // A call of malloc or free, or a client's write into a live payload, on memory from address base on.
  ghost predicate Steps(base: nat, s: State, call: Call, t: State) {
    && |t.mem| == |s.mem|
    && match call
       case Request(op) =>
         && Legal(s.blocks, op) && t.blocks == After(s.blocks, op)
         && forall i | 0 <= i < |s.mem| && !Touches(s.blocks, op, base + i) :: t.mem[i] == s.mem[i]
       case Store(a, v) =>
         && base <= a < base + |s.mem| && t == State(s.mem[a - base := v], s.blocks)
         && exists b :: b in s.blocks && !b.free && InPayload(b, a)
  }

  ghost predicate Run(base: nat, states: seq<State>, calls: seq<Call>)
    decreases |calls|
  {
    && |states| == |calls| + 1
    && (calls == [] || (Steps(base, states[0], calls[0], states[1]) && Run(base, states[1..], calls[1..])))
  }

  // The value at address a after the clients' writes, if it was v before.
  function Written(calls: seq<Call>, a: nat, v: u8): u8
    decreases |calls|
  {
    if calls == [] then v
    else Written(calls[1..], a, if calls[0].Store? && calls[0].a == a then calls[0].v else v)
  }

  lemma StepTiles(base: nat, s: State, call: Call, t: State, hi: nat)
    requires Steps(base, s, call, t) && Tiles(s.blocks, base, hi)
    ensures Tiles(t.blocks, base, hi)
  {
    if call.Request? {
      match call.op {
        case Malloc(n) => MallocTiles(s.blocks, base, hi, n);
        case Free(p) => FreeTiles(s.blocks, base, hi, p);
      }
    }
  }

  predicate Frees(call: Call, b: Block) {
    call.Request? && call.op.Free? && call.op.p == b.addr + HEADER
  }

  lemma StepKeepsLive(base: nat, s: State, call: Call, t: State, b: Block)
    requires Steps(base, s, call, t) && b in s.blocks && !b.free && !Frees(call, b)
    ensures b in t.blocks
  {
    if call.Request? {
      assert [call.op][1..] == [] && AfterAll(s.blocks, [call.op]) == t.blocks;
      LiveStays(s.blocks, [call.op], b);
    }
  }

  // Neither malloc nor free touches the payload of a live block.
  lemma StepKeepsByte(base: nat, s: State, call: Call, t: State, hi: nat, b: Block, a: nat)
    requires Steps(base, s, call, t) && Tiles(s.blocks, base, hi) && hi <= base + |s.mem|
    requires b in s.blocks && !b.free && InPayload(b, a)
    ensures base <= a < base + |s.mem|
    ensures t.mem[a - base] == if call.Store? && call.a == a then call.v else s.mem[a - base]
  {
    var i :| 0 <= i < |s.blocks| && s.blocks[i] == b;
    PayloadsDisjoint(s.blocks, base, hi, i, i, a);
    if call.Request? && Touches(s.blocks, call.op, a) {
      match call.op {
        case Malloc(n) => PayloadsDisjoint(s.blocks, base, hi, i, FirstFit(s.blocks, Want(n), 0), a);
        case Free(p) =>
          var j :| 0 <= j < |s.blocks| && s.blocks[j].addr + HEADER == p;
          PayloadsDisjoint(s.blocks, base, hi, i, j, a);
      }
    }
  }

  lemma StepLength(base: nat, s: State, call: Call, t: State)
    requires Steps(base, s, call, t)
    ensures |t.mem| == |s.mem|
  {
  }

  lemma ByteInside(base: nat, s: State, hi: nat, b: Block, a: nat)
    requires Tiles(s.blocks, base, hi) && hi <= base + |s.mem| && b in s.blocks && InPayload(b, a)
    ensures base <= a < base + |s.mem|
  {
    var i :| 0 <= i < |s.blocks| && s.blocks[i] == b;
    Inside(s.blocks, base, hi, i);
  }

  // Over every run of malloc, free and writes into live payloads, each byte of a block that is not freed
  // holds what was last written to it.
  lemma {:induction false} BytesStay(base: nat, states: seq<State>, calls: seq<Call>, hi: nat, b: Block, a: nat)
    requires Run(base, states, calls) && Tiles(states[0].blocks, base, hi) && hi <= base + |states[0].mem|
    requires b in states[0].blocks && !b.free && InPayload(b, a) && forall call | call in calls :: !Frees(call, b)
    ensures var last := states[|calls|];
      && b in last.blocks && base <= a < base + |last.mem| == base + |states[0].mem|
      && last.mem[a - base] == Written(calls, a, states[0].mem[a - base])
    decreases |calls|
  {
    hide Steps, Tiles, InPayload;
    if calls == [] {
      ByteInside(base, states[0], hi, b, a);
    } else {
      var s, call, t := states[0], calls[0], states[1];
      assert call in calls && forall c | c in calls[1..] :: c in calls;
      StepTiles(base, s, call, t, hi);
      StepKeepsLive(base, s, call, t, b);
      StepKeepsByte(base, s, call, t, hi, b, a);
      StepLength(base, s, call, t);
      BytesStay(base, states[1..], calls[1..], hi, b, a);
    }
  }
}

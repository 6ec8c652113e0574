/** The ELF loader: an entry-point check over the symbol table, then the PT_LOAD segments. */
module ElfLoader {
  import opened Machine
  import opened Bytes
  import opened MemoryOps

  const PT_LOAD: u32 := 1
  const SHT_SYMTAB: u32 := 2
  const SHT_STRTAB: u32 := 3
  const SP_MAIN: seq<u8> := [115, 112, 95, 109, 97, 105, 110]  // "sp_main"

  // ---------- Fields of the file image at address elf ----------

  // The ELF header and both header tables lie inside the image of the given length.
  ghost predicate TablesFit(m: seq<u8>, elf: nat, length: nat) {
    && 52 <= length && elf + length <= |m|
    && Get32(m, elf + 28) + 32 * Get16(m, elf + 44) <= length
    && Get32(m, elf + 32) + 40 * Get16(m, elf + 48) <= length
  }

  function Entry(m: seq<u8>, elf: nat): u32
    requires elf + 52 <= |m|
  {
    Get32(m, elf + 24)
  }

  datatype Segment = Segment(kind: u32, offset: u32, vaddr: u32, filesz: u32, memsz: u32) {
    // The bytes of memory it covers: a file part longer than memsz is copied whole.
    function Span(): nat {
      Max(filesz, memsz)
    }

    predicate Covers(a: nat) {
      kind == PT_LOAD && vaddr <= a < vaddr + Span()
    }
  }

  function SegmentAt(m: seq<u8>, elf: nat, i: nat): Segment
    requires elf + 52 <= |m| && elf + Get32(m, elf + 28) + 32 * (i + 1) <= |m|
  {
    var p := elf + Get32(m, elf + 28) + 32 * i;
    Segment(Get32(m, p), Get32(m, p + 4), Get32(m, p + 8), Get32(m, p + 16), Get32(m, p + 20))
  }

  datatype Section = Section(kind: u32, offset: u32, size: u32)

  function SectionAt(m: seq<u8>, elf: nat, i: nat): Section
    requires elf + 52 <= |m| && elf + Get32(m, elf + 32) + 40 * (i + 1) <= |m|
  {
    var p := elf + Get32(m, elf + 32) + 40 * i;
    Section(Get32(m, p + 4), Get32(m, p + 16), Get32(m, p + 20))
  }

  // ---------- The entry-point check ----------

  // The last section of a kind among the first n, other than section `skip`.
  function LastSection(m: seq<u8>, elf: nat, length: nat, kind: u32, skip: int, n: nat): (r: Option<nat>)
    requires TablesFit(m, elf, length) && n <= Get16(m, elf + 48)
    ensures r.Some? ==> r.value < n && r.value != skip && SectionAt(m, elf, r.value).kind == kind
    ensures forall i | (if r.Some? then r.value + 1 else 0) <= i < n :: i == skip || SectionAt(m, elf, i).kind != kind
  {
    if n == 0 then None
    else if n - 1 != skip && SectionAt(m, elf, n - 1).kind == kind then Some(n - 1)
    else LastSection(m, elf, length, kind, skip, n - 1)
  }

  function SymbolTable(m: seq<u8>, elf: nat, length: nat): Option<nat>
    requires TablesFit(m, elf, length)
  {
    LastSection(m, elf, length, SHT_SYMTAB, -1, Get16(m, elf + 48))
  }

  // The section header string table does not count.
  function StringTable(m: seq<u8>, elf: nat, length: nat): Option<nat>
    requires TablesFit(m, elf, length)
  {
    LastSection(m, elf, length, SHT_STRTAB, Get16(m, elf + 50), Get16(m, elf + 48))
  }

  // The first of the symbols j .. count at address p whose value is v, or count.
  function FirstSymbol(m: seq<u8>, p: nat, count: nat, v: u32, j: nat): (r: nat)
    requires j <= count && p + 16 * count <= |m|
    ensures j <= r <= count && (r < count ==> Get32(m, p + 16 * r + 4) == v)
    ensures forall i | j <= i < r :: Get32(m, p + 16 * i + 4) != v
    decreases count - j
  {
    if j == count || Get32(m, p + 16 * j + 4) == v then j else FirstSymbol(m, p, count, v, j + 1)
  }

  // The symbols lie inside the image, and so does a name of the length compared for the symbol that counts.
  ghost predicate SymbolsFit(m: seq<u8>, elf: nat, length: nat)
    requires TablesFit(m, elf, length)
  {
    SymbolTable(m, elf, length).Some? && StringTable(m, elf, length).Some? ==>
      var symbols := SectionAt(m, elf, SymbolTable(m, elf, length).value);
      var strings := SectionAt(m, elf, StringTable(m, elf, length).value);
      && symbols.offset + symbols.size <= length
      && var p, count := elf + symbols.offset, symbols.size / 16;
         var j := FirstSymbol(m, p, count, Entry(m, elf), 0);
         j < count ==> strings.offset + Get32(m, p + 16 * j) + |SP_MAIN| + 1 <= length
  }

  // The C string at address a is s.
  ghost predicate NameIs(m: seq<u8>, a: nat, s: seq<u8>) {
    a + |s| < |m| && m[a..a + |s|] == s && m[a + |s|] == 0
  }

  // The first symbol whose value is the entry point is called sp_main.
  ghost predicate Accepts(m: seq<u8>, elf: nat, length: nat)
    requires TablesFit(m, elf, length) && SymbolsFit(m, elf, length)
  {
    && SymbolTable(m, elf, length).Some? && StringTable(m, elf, length).Some?
    && var symbols := SectionAt(m, elf, SymbolTable(m, elf, length).value);
       var strings := SectionAt(m, elf, StringTable(m, elf, length).value);
       var p, count := elf + symbols.offset, symbols.size / 16;
       var j := FirstSymbol(m, p, count, Entry(m, elf), 0);
       j < count && NameIs(m, elf + strings.offset + Get32(m, p + 16 * j), SP_MAIN)
  }

  // strcmp of the C string at a with s.
  method Strcmp(mem: array<u8>, a: nat, s: seq<u8>) returns (diff: int)
    requires a + |s| < mem.Length && 0 !in s
    ensures diff == 0 <==> NameIs(mem[..], a, s)
  {
    var i := 0;
    while mem[a + i] != 0 && mem[a + i] == (if i < |s| then s[i] else 0)
      invariant i <= |s| && mem[a..a + i] == s[..i]
      decreases |s| - i
    {
      i := i + 1;
    }
    diff := mem[a + i] as int - (if i < |s| then s[i] else 0) as int;
    assert forall k | 0 <= k < |s| :: s[k] != 0;
    if diff == 0 {
      assert s[..i] == s;
    } else if i < |s| {
      assert mem[..][a..a + |s|][i] == mem[a + i];
    }
  }

  function SectionOf(m: seq<u8>, elf: nat, i: Option<nat>): Option<Section>
    requires elf + 52 <= |m| && (i.Some? ==> elf + Get32(m, elf + 32) + 40 * (i.value + 1) <= |m|)
  {
    match i
    case None => None
    case Some(k) => Some(SectionAt(m, elf, k))
  }

  // The section headers that the check keeps: the last symbol table and the last string table.
  method FindTables(mem: array<u8>, elf: nat, ghost length: nat)
      returns (symtab: Option<Section>, strtab: Option<Section>)
    requires TablesFit(mem[..], elf, length)
    ensures symtab == SectionOf(mem[..], elf, SymbolTable(mem[..], elf, length))
    ensures strtab == SectionOf(mem[..], elf, StringTable(mem[..], elf, length))
  {
    hide Get32, Get16;
    symtab, strtab := None, None;
    var shoff := Load32(mem, elf + 32);
    var shnum := Load16(mem, elf + 48);
    var shstrndx := Load16(mem, elf + 50);
    var i: nat := 0;
    while i < shnum
      invariant i <= shnum
      invariant symtab == SectionOf(mem[..], elf, LastSection(mem[..], elf, length, SHT_SYMTAB, -1, i))
      invariant strtab == SectionOf(mem[..], elf, LastSection(mem[..], elf, length, SHT_STRTAB, shstrndx, i))
    {
      var p: nat := elf + shoff + 40 * i;
      var kind := Load32(mem, p + 4);
      var offset := Load32(mem, p + 16);
      var size := Load32(mem, p + 20);
      assert SectionAt(mem[..], elf, i) == Section(kind, offset, size);
      if kind == SHT_SYMTAB {
        symtab := Some(Section(kind, offset, size));
      }
      if kind == SHT_STRTAB && i != shstrndx {
        strtab := Some(Section(kind, offset, size));
      }
      i := i + 1;
    }
  }

  // Only the first symbol of the right value counts.
  method CheckSymbols(mem: array<u8>, p: nat, count: nat, names: nat, entry: u32) returns (ok: bool)
    requires p + 16 * count <= mem.Length
    requires var j := FirstSymbol(mem[..], p, count, entry, 0);
      j < count ==> names + Get32(mem[..], p + 16 * j) + |SP_MAIN| < mem.Length
    ensures var j := FirstSymbol(mem[..], p, count, entry, 0);
      ok == (j < count && NameIs(mem[..], names + Get32(mem[..], p + 16 * j), SP_MAIN))
  {
    hide Get32, NameIs;
    var j: nat := 0;
    while j < count
      invariant j <= count
      invariant FirstSymbol(mem[..], p, count, entry, j) == FirstSymbol(mem[..], p, count, entry, 0)
    {
      var value := Load32(mem, p + 16 * j + 4);
      if value == entry {
        var name := Load32(mem, p + 16 * j);
        var diff := Strcmp(mem, names + name, SP_MAIN);
        return diff == 0;
      }
      j := j + 1;
    }
    return false;
  }

  method CheckEntryPoint(mem: array<u8>, elf: nat, entry: u32, ghost length: nat) returns (ok: bool)
    requires TablesFit(mem[..], elf, length) && SymbolsFit(mem[..], elf, length) && entry == Entry(mem[..], elf)
    ensures ok == Accepts(mem[..], elf, length)
  {
    hide Get32, LastSection, NameIs, FirstSymbol, SectionAt;
    var symtab, strtab := FindTables(mem, elf, length);
    if symtab.Some? && strtab.Some? {
      ok := CheckSymbols(mem, elf + symtab.value.offset, symtab.value.size / 16, elf + strtab.value.offset, entry);
      return;
    }
    return false;
  }

  // ---------- The load ----------

  // Segments lie inside memory, apart from each other and from the image; their file parts lie in the image.
  ghost predicate SegmentsApart(m: seq<u8>, elf: nat, length: nat)
    requires TablesFit(m, elf, length)
  {
    forall i | 0 <= i < Get16(m, elf + 44) && SegmentAt(m, elf, i).kind == PT_LOAD ::
      var g := SegmentAt(m, elf, i);
      && g.vaddr + g.Span() <= |m| && g.offset + g.filesz <= length
      && (g.vaddr + g.Span() <= elf || elf + length <= g.vaddr)
      && forall j | 0 <= j < i && SegmentAt(m, elf, j).kind == PT_LOAD ::
           var h := SegmentAt(m, elf, j); g.vaddr + g.Span() <= h.vaddr || h.vaddr + h.Span() <= g.vaddr
  }

  // The byte that a loaded segment has at address a: its file part, then zeros up to memsz.
  function SegmentByte(m: seq<u8>, elf: nat, g: Segment, a: nat): u8
    requires g.Covers(a) && elf + g.offset + g.filesz <= |m|
  {
    if a < g.vaddr + g.filesz then m[elf + g.offset + (a - g.vaddr)] else 0
  }

  // Memory r is m with the first n segments loaded.
  ghost predicate Loaded(m: seq<u8>, r: seq<u8>, elf: nat, length: nat, n: nat)
    requires TablesFit(m, elf, length) && n <= Get16(m, elf + 44) && SegmentsApart(m, elf, length)
  {
    && |r| == |m|
    && (forall i, a | 0 <= i < n && 0 <= a < |m| && SegmentAt(m, elf, i).Covers(a) ::
          r[a] == SegmentByte(m, elf, SegmentAt(m, elf, i), a))
    && (forall a | 0 <= a < |m| && (forall i | 0 <= i < n :: !SegmentAt(m, elf, i).Covers(a)) :: r[a] == m[a])
  }

  // memcpy of the file part, then memset of the rest of the segment.
  method LoadSegment(mem: array<u8>, elf: nat, g: Segment)
    requires g.kind == PT_LOAD && g.vaddr + g.Span() <= mem.Length && elf + g.offset + g.filesz <= mem.Length
    requires g.vaddr + g.Span() <= elf + g.offset || elf + g.offset + g.filesz <= g.vaddr
    modifies mem
    ensures forall a | 0 <= a < mem.Length ::
              mem[a] == if g.Covers(a) then SegmentByte(old(mem[..]), elf, g, a) else old(mem[a])
  {
    hide Copied;
    ghost var m := mem[..];
    Memcpy(mem, g.vaddr, elf + g.offset, g.filesz);
    ForwardCopy(m, g.vaddr, elf + g.offset, g.filesz);
    assert forall a | 0 <= a < mem.Length :: mem[a] == mem[..][a] == CopyByte(m, g.vaddr, elf + g.offset, g.filesz, a);
    if g.memsz > g.filesz {
      Memset(mem, g.vaddr + g.filesz, 0, g.memsz - g.filesz);
    }
  }

  // The loaded segments leave the image, and so all headers, alone.
  lemma ImageKept(m: seq<u8>, r: seq<u8>, elf: nat, length: nat, n: nat)
    requires TablesFit(m, elf, length) && n <= Get16(m, elf + 44) && SegmentsApart(m, elf, length)
    requires Loaded(m, r, elf, length, n)
    ensures forall a | elf <= a < elf + length :: r[a] == m[a]
  {
  }

  lemma SameSegment(m: seq<u8>, r: seq<u8>, elf: nat, length: nat, i: nat)
    requires TablesFit(m, elf, length) && |r| == |m| && i < Get16(m, elf + 44)
    requires forall a | elf <= a < elf + length :: r[a] == m[a]
    ensures Get32(r, elf + 28) == Get32(m, elf + 28) && SegmentAt(r, elf, i) == SegmentAt(m, elf, i)
  {
    var p := elf + Get32(m, elf + 28) + 32 * i;
    Get32Same(m, r, elf + 28);
    Get32Same(m, r, p);
    Get32Same(m, r, p + 4);
    Get32Same(m, r, p + 8);
    Get32Same(m, r, p + 16);
    Get32Same(m, r, p + 20);
  }

  // The next program header, loaded or passed over, extends what is loaded.
  lemma LoadedStep(m: seq<u8>, r: seq<u8>, r1: seq<u8>, elf: nat, length: nat, n: nat)
    requires TablesFit(m, elf, length) && n < Get16(m, elf + 44) && SegmentsApart(m, elf, length)
    requires Loaded(m, r, elf, length, n) && |r1| == |r|
    requires var g := SegmentAt(m, elf, n);
      if g.kind == PT_LOAD
      then g.vaddr + g.Span() <= |m| && elf + g.offset + g.filesz <= |m|
           && forall a | 0 <= a < |m| :: r1[a] == if g.Covers(a) then SegmentByte(r, elf, g, a) else r[a]
      else r1 == r
    ensures Loaded(m, r1, elf, length, n + 1)
  {
    hide SegmentAt;
    var g := SegmentAt(m, elf, n);
    ImageKept(m, r, elf, length, n);
    forall i, a | 0 <= i < n + 1 && 0 <= a < |m| && SegmentAt(m, elf, i).Covers(a)
      ensures r1[a] == SegmentByte(m, elf, SegmentAt(m, elf, i), a)
    {
      assert i < n ==> !g.Covers(a) && r[a] == SegmentByte(m, elf, SegmentAt(m, elf, i), a);
    }
    forall a | 0 <= a < |m| && (forall i | 0 <= i < n + 1 :: !SegmentAt(m, elf, i).Covers(a))
      ensures r1[a] == m[a]
    {
      assert !SegmentAt(m, elf, n).Covers(a);
    }
  }

  datatype Outcome = BadMagic | Rejected | Entered(entry: u32)

  ghost predicate HasMagic(m: seq<u8>, elf: nat)
    requires elf + 4 <= |m|
  {
    m[elf..elf + 4] == [0x7f, 69, 76, 70]
  }

  lemma NothingLoaded(m: seq<u8>, elf: nat, length: nat)
    requires TablesFit(m, elf, length) && SegmentsApart(m, elf, length)
    ensures Loaded(m, m, elf, length, 0)
  {
  }

  method LoadHeader(mem: array<u8>, elf: nat, phoff: u32, i: nat) returns (g: Segment)
    requires elf + 52 <= mem.Length && phoff == Get32(mem[..], elf + 28) && elf + phoff + 32 * (i + 1) <= mem.Length
    ensures g == SegmentAt(mem[..], elf, i)
  {
    hide Get32;
    var p: nat := elf + phoff + 32 * i;
    var kind := Load32(mem, p);
    var offset := Load32(mem, p + 4);
    var vaddr := Load32(mem, p + 8);
    var filesz := Load32(mem, p + 16);
    var memsz := Load32(mem, p + 20);
    g := Segment(kind, offset, vaddr, filesz, memsz);
  }

  method LoadSegments(mem: array<u8>, elf: nat, ghost length: nat)
    requires TablesFit(mem[..], elf, length) && SegmentsApart(mem[..], elf, length)
    modifies mem
    ensures Loaded(old(mem[..]), mem[..], elf, length, Get16(old(mem[..]), elf + 44))
  {
    hide Get32, Get16, SegmentAt, Loaded;
    ghost var m := mem[..];
    var phoff := Load32(mem, elf + 28);
    var phnum := Load16(mem, elf + 44);
    NothingLoaded(m, elf, length);
    var i: nat := 0;
    while i < phnum
      invariant i <= phnum && Loaded(m, mem[..], elf, length, i)
    {
      ghost var before := mem[..];
      ImageKept(m, before, elf, length, i);
      SameSegment(m, before, elf, length, i);
      var g := LoadHeader(mem, elf, phoff, i);
      if g.kind == PT_LOAD {
        LoadSegment(mem, elf, g);
      }
      LoadedStep(m, before, mem[..], elf, length, i);
      i := i + 1;
    }
  }

  // An accepted image has all its segments loaded and nothing else changed; a rejected one changes nothing.
  // Only an image with the magic number need hold tables, and only an accepted one loadable segments.
  method LoadElf(mem: array<u8>, elf: nat, ghost length: nat) returns (r: Outcome)
    requires elf + 4 <= mem.Length
    requires HasMagic(mem[..], elf) ==> TablesFit(mem[..], elf, length) && SymbolsFit(mem[..], elf, length)
    requires HasMagic(mem[..], elf) && Accepts(mem[..], elf, length) ==> SegmentsApart(mem[..], elf, length)
    modifies mem
    ensures r.BadMagic? <==> !HasMagic(old(mem[..]), elf)
    ensures r.Entered? <==> !r.BadMagic? && Accepts(old(mem[..]), elf, length)
    ensures r.Entered? ==> r.entry == Entry(old(mem[..]), elf)
    ensures r.Entered? ==> Loaded(old(mem[..]), mem[..], elf, length, Get16(old(mem[..]), elf + 44))
    ensures !r.Entered? ==> mem[..] == old(mem[..])
  {
    if mem[elf] != 0x7f || mem[elf + 1] != 69 || mem[elf + 2] != 76 || mem[elf + 3] != 70 {
      return BadMagic;
    }
    var entry := Load32(mem, elf + 24);
    var ok := CheckEntryPoint(mem, elf, entry, length);
    if !ok {
      return Rejected;
    }
    LoadSegments(mem, elf, length);
    return Entered(entry);
  }
}

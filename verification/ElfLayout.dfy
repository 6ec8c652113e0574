/** An ELF file as its records, field by field, and what checking and loading it mean in their terms. */
module ElfLayout {
  import opened Machine
  import opened Bytes
  import opened ElfLoader

  // ---------- Records ----------

  datatype FileHeader = FileHeader(ident: seq<u8>, kind: u16, machine: u16, version: u32, entry: u32, phoff: u32,
                                   shoff: u32, flags: u32, ehsize: u16, phentsize: u16, phnum: u16, shentsize: u16,
                                   shnum: u16, shstrndx: u16)

  datatype ProgramHeader = ProgramHeader(kind: u32, offset: u32, vaddr: u32, paddr: u32, filesz: u32, memsz: u32,
                                         flags: u32, align: u32)

  datatype SectionHeader = SectionHeader(name: u32, kind: u32, flags: u32, addr: u32, offset: u32, size: u32,
                                         link: u32, info: u32, align: u32, entsize: u32)

  datatype Symbol = Symbol(name: u32, value: u32, size: u32, info: u8, other: u8, shndx: u16)

  function FileHeaderBytes(h: FileHeader): seq<u8> {
    h.ident + Le16(h.kind) + Le16(h.machine) + Le32(h.version) + Le32(h.entry) + Le32(h.phoff) + Le32(h.shoff)
    + Le32(h.flags) + Le16(h.ehsize) + Le16(h.phentsize) + Le16(h.phnum) + Le16(h.shentsize) + Le16(h.shnum)
    + Le16(h.shstrndx)
  }

  function ProgramHeaderBytes(p: ProgramHeader): seq<u8> {
    Le32(p.kind) + Le32(p.offset) + Le32(p.vaddr) + Le32(p.paddr) + Le32(p.filesz) + Le32(p.memsz) + Le32(p.flags)
    + Le32(p.align)
  }

  function SectionHeaderBytes(s: SectionHeader): seq<u8> {
    Le32(s.name) + Le32(s.kind) + Le32(s.flags) + Le32(s.addr) + Le32(s.offset) + Le32(s.size) + Le32(s.link)
    + Le32(s.info) + Le32(s.align) + Le32(s.entsize)
  }

  function SymbolBytes(s: Symbol): seq<u8> {
    Le32(s.name) + Le32(s.value) + Le32(s.size) + [s.info] + [s.other] + Le16(s.shndx)
  }

  // The bytes b stand at address p.
  ghost predicate Holds(m: seq<u8>, p: nat, b: seq<u8>) {
    p + |b| <= |m| && m[p..p + |b|] == b
  }

  lemma PartAt(m: seq<u8>, p: nat, front: seq<u8>, part: seq<u8>, back: seq<u8>)
    requires Holds(m, p, front + part + back)
    ensures Holds(m, p + |front|, part)
  {
    var b, k := front + part + back, |front|;
    var s := m[p..p + |b|];
    assert b[k..k + |part|] == part && s == b;
    forall i | 0 <= i < |part| ensures m[p + k + i] == part[i] {
      assert s[k + i] == b[k + i];
    }
  }

  lemma WordAt(m: seq<u8>, p: nat, b: seq<u8>, front: seq<u8>, w: u32, back: seq<u8>)
    requires Holds(m, p, b) && b == front + Le32(w) + back
    ensures p + |front| + 4 <= |m| && Get32(m, p + |front|) == w
  {
    hide Get32, Le32;
    PartAt(m, p, front, Le32(w), back);
    ReadLe32(m, p + |front|, w);
  }

  lemma HalfAt(m: seq<u8>, p: nat, b: seq<u8>, front: seq<u8>, w: u16, back: seq<u8>)
    requires Holds(m, p, b) && b == front + Le16(w) + back
    ensures p + |front| + 2 <= |m| && Get16(m, p + |front|) == w
  {
    hide Get16, Le16;
    PartAt(m, p, front, Le16(w), back);
    ReadLe16(m, p + |front|, w);
  }

  lemma ProgramHeaderRead(m: seq<u8>, p: nat, h: ProgramHeader)
    requires Holds(m, p, ProgramHeaderBytes(h))
    ensures p + 32 <= |m| && Get32(m, p) == h.kind && Get32(m, p + 4) == h.offset && Get32(m, p + 8) == h.vaddr
    ensures Get32(m, p + 16) == h.filesz && Get32(m, p + 20) == h.memsz
  {
    hide Get32, Le32, Holds;
    var b := ProgramHeaderBytes(h);
    var w0, w1, w2, w3 := Le32(h.kind), Le32(h.offset), Le32(h.vaddr), Le32(h.paddr);
    var w4, w5, w6, w7 := Le32(h.filesz), Le32(h.memsz), Le32(h.flags), Le32(h.align);
    WordAt(m, p, b, [], h.kind, w1 + w2 + w3 + w4 + w5 + w6 + w7);
    WordAt(m, p, b, w0, h.offset, w2 + w3 + w4 + w5 + w6 + w7);
    WordAt(m, p, b, w0 + w1, h.vaddr, w3 + w4 + w5 + w6 + w7);
    WordAt(m, p, b, w0 + w1 + w2 + w3, h.filesz, w5 + w6 + w7);
    WordAt(m, p, b, w0 + w1 + w2 + w3 + w4, h.memsz, w6 + w7);
    WordAt(m, p, b, w0 + w1 + w2 + w3 + w4 + w5 + w6, h.align, []);
  }

  lemma SectionHeaderRead(m: seq<u8>, p: nat, h: SectionHeader)
    requires Holds(m, p, SectionHeaderBytes(h))
    ensures p + 40 <= |m| && Get32(m, p + 4) == h.kind && Get32(m, p + 16) == h.offset && Get32(m, p + 20) == h.size
  {
    hide Get32, Le32, Holds;
    var b := SectionHeaderBytes(h);
    var w0, w1, w2, w3, w4 := Le32(h.name), Le32(h.kind), Le32(h.flags), Le32(h.addr), Le32(h.offset);
    var w5, w6, w7, w8, w9 := Le32(h.size), Le32(h.link), Le32(h.info), Le32(h.align), Le32(h.entsize);
    WordAt(m, p, b, w0, h.kind, w2 + w3 + w4 + w5 + w6 + w7 + w8 + w9);
    WordAt(m, p, b, w0 + w1 + w2 + w3, h.offset, w5 + w6 + w7 + w8 + w9);
    WordAt(m, p, b, w0 + w1 + w2 + w3 + w4, h.size, w6 + w7 + w8 + w9);
    WordAt(m, p, b, w0 + w1 + w2 + w3 + w4 + w5 + w6 + w7 + w8, h.entsize, []);
  }

  lemma SymbolRead(m: seq<u8>, p: nat, s: Symbol)
    requires Holds(m, p, SymbolBytes(s))
    ensures p + 16 <= |m| && Get32(m, p) == s.name && Get32(m, p + 4) == s.value
  {
    hide Get32, Le32, Le16;
    var b := SymbolBytes(s);
    var back := Le32(s.size) + [s.info] + [s.other] + Le16(s.shndx);
    assert |b| == 16;
    WordAt(m, p, b, [], s.name, Le32(s.value) + back);
    WordAt(m, p, b, Le32(s.name), s.value, back);
  }

  lemma FileHeaderRead(m: seq<u8>, p: nat, h: FileHeader)
    requires |h.ident| == 16 && Holds(m, p, FileHeaderBytes(h))
    ensures p + 52 <= |m| && m[p..p + 16] == h.ident && Get32(m, p + 24) == h.entry
    ensures Get32(m, p + 28) == h.phoff && Get32(m, p + 32) == h.shoff && Get16(m, p + 44) == h.phnum
    ensures Get16(m, p + 48) == h.shnum && Get16(m, p + 50) == h.shstrndx
  {
    hide Get32, Get16, Le32, Le16;
    var b := FileHeaderBytes(h);
    var f0 := h.ident + Le16(h.kind) + Le16(h.machine) + Le32(h.version);
    var f1 := f0 + Le32(h.entry);
    var f2 := f1 + Le32(h.phoff);
    var f3 := f2 + Le32(h.shoff) + Le32(h.flags) + Le16(h.ehsize) + Le16(h.phentsize);
    var f4 := f3 + Le16(h.phnum) + Le16(h.shentsize);
    var f5 := f4 + Le16(h.shnum);
    assert |f0| == 24 && |f1| == 28 && |f2| == 32 && |f3| == 44 && |f4| == 48 && |f5| == 50 && |b| == 52;
    assert m[p..p + 16] == m[p..p + |b|][..16] == b[..16] == h.ident;
    WordAt(m, p, b, f0, h.entry, b[28..]);
    WordAt(m, p, b, f1, h.phoff, b[32..]);
    WordAt(m, p, b, f2, h.shoff, b[36..]);
    HalfAt(m, p, b, f3, h.phnum, b[46..]);
    HalfAt(m, p, b, f4, h.shnum, b[50..]);
    HalfAt(m, p, b, f5, h.shstrndx, b[52..]);
  }

  // ---------- A file in memory ----------

  // The image of `length` bytes at address elf starts with a file header, and holds the tables it names.
  ghost predicate Image(m: seq<u8>, elf: nat, length: nat, h: FileHeader, ps: seq<ProgramHeader>,
                        ss: seq<SectionHeader>)
  {
    && elf + length <= |m| && 52 <= length && |h.ident| == 16 && Holds(m, elf, FileHeaderBytes(h))
    && |ps| == h.phnum && |ss| == h.shnum && h.phoff + 32 * |ps| <= length && h.shoff + 40 * |ss| <= length
    && (forall i | 0 <= i < |ps| :: Holds(m, elf + h.phoff + 32 * i, ProgramHeaderBytes(ps[i])))
    && (forall i | 0 <= i < |ss| :: Holds(m, elf + h.shoff + 40 * i, SectionHeaderBytes(ss[i])))
  }

  lemma ImageFits(m: seq<u8>, elf: nat, length: nat, h: FileHeader, ps: seq<ProgramHeader>, ss: seq<SectionHeader>)
    requires Image(m, elf, length, h, ps, ss)
    ensures elf + 52 <= |m| && TablesFit(m, elf, length) && Entry(m, elf) == h.entry
    ensures Get16(m, elf + 44) == |ps| && Get16(m, elf + 48) == |ss| && Get16(m, elf + 50) == h.shstrndx
    ensures Get32(m, elf + 28) == h.phoff && Get32(m, elf + 32) == h.shoff
    ensures HasMagic(m, elf) <==> h.ident[..4] == [127, 69, 76, 70]
  {
    hide Get32, Get16, FileHeaderBytes, ProgramHeaderBytes, SectionHeaderBytes, Holds;
    FileHeaderRead(m, elf, h);
    assert m[elf..elf + 4] == m[elf..elf + 16][..4];
  }

  lemma SegmentRead(m: seq<u8>, elf: nat, length: nat, h: FileHeader, ps: seq<ProgramHeader>, ss: seq<SectionHeader>,
                    i: nat)
    requires Image(m, elf, length, h, ps, ss) && i < |ps|
    ensures elf + 52 <= |m| && elf + Get32(m, elf + 28) + 32 * (i + 1) <= |m|
    ensures SegmentAt(m, elf, i) == Segment(ps[i].kind, ps[i].offset, ps[i].vaddr, ps[i].filesz, ps[i].memsz)
  {
    ImageFits(m, elf, length, h, ps, ss);
    hide Get32, FileHeaderBytes, ProgramHeaderBytes, SectionHeaderBytes, Holds;
    assert Holds(m, elf + h.phoff + 32 * i, ProgramHeaderBytes(ps[i]));
    ProgramHeaderRead(m, elf + h.phoff + 32 * i, ps[i]);
  }

  lemma SectionRead(m: seq<u8>, elf: nat, length: nat, h: FileHeader, ps: seq<ProgramHeader>, ss: seq<SectionHeader>,
                    i: nat)
    requires Image(m, elf, length, h, ps, ss) && i < |ss|
    ensures elf + 52 <= |m| && elf + Get32(m, elf + 32) + 40 * (i + 1) <= |m|
    ensures SectionAt(m, elf, i) == Section(ss[i].kind, ss[i].offset, ss[i].size)
  {
    ImageFits(m, elf, length, h, ps, ss);
    hide Get32, FileHeaderBytes, ProgramHeaderBytes, SectionHeaderBytes, Holds;
    assert Holds(m, elf + h.shoff + 40 * i, SectionHeaderBytes(ss[i]));
    SectionHeaderRead(m, elf + h.shoff + 40 * i, ss[i]);
  }

  // ---------- Loading ----------

  // Address a belongs to a header of type 1 (PT_LOAD).
  predicate Loads(p: ProgramHeader, a: nat) {
    p.kind == 1 && p.vaddr <= a < p.vaddr + Max(p.filesz, p.memsz)
  }

  function End(p: ProgramHeader): nat {
    p.vaddr + Max(p.filesz, p.memsz)
  }

  // The parts loaded lie in memory, apart from the image and from each other, and their bytes in the image.
  ghost predicate PartsApart(m: seq<u8>, elf: nat, length: nat, ps: seq<ProgramHeader>) {
    forall i | 0 <= i < |ps| && ps[i].kind == 1 ::
      && End(ps[i]) <= |m| && ps[i].offset + ps[i].filesz <= length
      && (End(ps[i]) <= elf || elf + length <= ps[i].vaddr)
      && forall j | 0 <= j < i && ps[j].kind == 1 :: End(ps[i]) <= ps[j].vaddr || End(ps[j]) <= ps[i].vaddr
  }

  // In terms of the headers: when an image may be loaded.
  lemma ApartRead(m: seq<u8>, elf: nat, length: nat, h: FileHeader, ps: seq<ProgramHeader>, ss: seq<SectionHeader>)
    requires Image(m, elf, length, h, ps, ss) && TablesFit(m, elf, length) && Get16(m, elf + 44) == |ps|
    ensures SegmentsApart(m, elf, length) <==> PartsApart(m, elf, length, ps)
  {
    hide Get32, Get16, SegmentAt, Image, TablesFit;
    forall i | 0 <= i < |ps|
      ensures elf + 52 <= |m| && elf + Get32(m, elf + 28) + 32 * (i + 1) <= |m|
      ensures SegmentAt(m, elf, i) == Segment(ps[i].kind, ps[i].offset, ps[i].vaddr, ps[i].filesz, ps[i].memsz)
    {
      SegmentRead(m, elf, length, h, ps, ss, i);
    }
  }

  // After a load, the part of each such header is its file bytes, then zeros up to its memory size; every
  // other byte of memory is as it was.
  lemma LoadedLayout(m: seq<u8>, r: seq<u8>, elf: nat, length: nat, h: FileHeader, ps: seq<ProgramHeader>,
                     ss: seq<SectionHeader>, a: nat)
    requires Image(m, elf, length, h, ps, ss) && TablesFit(m, elf, length) && SegmentsApart(m, elf, length)
    requires Get16(m, elf + 44) == |ps| && Loaded(m, r, elf, length, |ps|) && a < |m|
    ensures |r| == |m|
    ensures forall i | 0 <= i < |ps| && Loads(ps[i], a) ::
              && elf + ps[i].offset + ps[i].filesz <= |m|
              && r[a] == if a < ps[i].vaddr + ps[i].filesz then m[elf + ps[i].offset + (a - ps[i].vaddr)] else 0
    ensures (forall i | 0 <= i < |ps| :: !Loads(ps[i], a)) ==> r[a] == m[a]
  {
    hide Get32, Get16, SegmentAt, Image;
    forall i | 0 <= i < |ps| && Loads(ps[i], a)
      ensures elf + ps[i].offset + ps[i].filesz <= |m|
      ensures r[a] == if a < ps[i].vaddr + ps[i].filesz then m[elf + ps[i].offset + (a - ps[i].vaddr)] else 0
    {
      SegmentRead(m, elf, length, h, ps, ss, i);
      assert SegmentAt(m, elf, i).Covers(a);
    }
    if forall i | 0 <= i < |ps| :: !Loads(ps[i], a) {
      forall i | 0 <= i < |ps| ensures !SegmentAt(m, elf, i).Covers(a) {
        SegmentRead(m, elf, length, h, ps, ss, i);
      }
    }
  }

  // ---------- The entry-point check ----------

  // The last section of a kind, other than section skip.
  ghost predicate LastOf(ss: seq<SectionHeader>, kind: u32, skip: int, k: nat) {
    && k < |ss| && k != skip && ss[k].kind == kind
    && forall i | k < i < |ss| && i != skip :: ss[i].kind != kind
  }

  lemma LastIs(m: seq<u8>, elf: nat, length: nat, h: FileHeader, ps: seq<ProgramHeader>, ss: seq<SectionHeader>,
               kind: u32, skip: int, k: nat)
    requires Image(m, elf, length, h, ps, ss) && TablesFit(m, elf, length) && Get16(m, elf + 48) == |ss|
    ensures LastSection(m, elf, length, kind, skip, |ss|) == Some(k) <==> LastOf(ss, kind, skip, k)
  {
    hide Get32, Get16, SectionAt, Image, LastSection, TablesFit;
    var r := LastSection(m, elf, length, kind, skip, |ss|);
    if r.Some? {
      SectionRead(m, elf, length, h, ps, ss, r.value);
    }
    if k < |ss| {
      SectionRead(m, elf, length, h, ps, ss, k);
    }
    if r == Some(k) {
      forall i | k < i < |ss| && i != skip ensures ss[i].kind != kind {
        SectionRead(m, elf, length, h, ps, ss, i);
      }
    }
  }

  lemma SpelledOut(m: seq<u8>, a: nat)
    ensures NameIs(m, a, SP_MAIN) <==> Holds(m, a, [115, 112, 95, 109, 97, 105, 110, 0])
  {
    var name: seq<u8> := [115, 112, 95, 109, 97, 105, 110, 0];
    assert name == SP_MAIN + [0] && name[..7] == SP_MAIN && name[7] == 0;
    if a + 8 <= |m| {
      var s := m[a..a + 8];
      assert s == m[a..a + 7] + [m[a + 7]] && s[..7] == m[a..a + 7] && s[7] == m[a + 7];
    }
  }

  lemma SymbolsRead(m: seq<u8>, p: nat, symbols: seq<Symbol>)
    requires forall i | 0 <= i < |symbols| :: Holds(m, p + 16 * i, SymbolBytes(symbols[i]))
    ensures forall i | 0 <= i < |symbols| :: p + 16 * i + 16 <= |m|
                                             && Get32(m, p + 16 * i) == symbols[i].name
                                             && Get32(m, p + 16 * i + 4) == symbols[i].value
  {
    hide Get32, Holds, SymbolBytes;
    forall i | 0 <= i < |symbols|
      ensures p + 16 * i + 16 <= |m| && Get32(m, p + 16 * i) == symbols[i].name
      ensures Get32(m, p + 16 * i + 4) == symbols[i].value
    {
      SymbolRead(m, p + 16 * i, symbols[i]);
    }
  }

  lemma FirstIs(m: seq<u8>, p: nat, symbols: seq<Symbol>, v: u32, j: nat)
    requires p + 16 * |symbols| <= |m|
    requires forall i | 0 <= i < |symbols| :: Get32(m, p + 16 * i + 4) == symbols[i].value
    requires j <= |symbols| && (forall i | 0 <= i < j :: symbols[i].value != v)
    requires j < |symbols| ==> symbols[j].value == v
    ensures FirstSymbol(m, p, |symbols|, v, 0) == j
  {
    hide Get32, FirstSymbol;
    var r := FirstSymbol(m, p, |symbols|, v, 0);
    assert r < |symbols| ==> symbols[r].value == v;
    assert j < |symbols| ==> Get32(m, p + 16 * j + 4) == v;
  }

  lemma FitsInside(m: seq<u8>, elf: nat, length: nat)
    requires TablesFit(m, elf, length)
    ensures elf + length <= |m|
  {
  }

  lemma TablesRead(m: seq<u8>, elf: nat, length: nat, a: nat, b: nat, p: nat, count: nat, names: nat)
    requires TablesFit(m, elf, length) && SymbolsFit(m, elf, length)
    requires SymbolTable(m, elf, length) == Some(a) && StringTable(m, elf, length) == Some(b)
    requires p == elf + SectionAt(m, elf, a).offset && count == SectionAt(m, elf, a).size / 16
    requires names == elf + SectionAt(m, elf, b).offset
    ensures p + 16 * count <= |m|
    ensures var j := FirstSymbol(m, p, count, Entry(m, elf), 0);
      Accepts(m, elf, length) <==> j < count && NameIs(m, names + Get32(m, p + 16 * j), SP_MAIN)
  {
    hide Get32, Get16, SectionAt, FirstSymbol, NameIs, SymbolTable, StringTable, TablesFit;
    FitsInside(m, elf, length);
  }

  // With a symbol table (type 2) and a string table (type 3, not the section names) in the file, the last of
  // each, the image is accepted exactly when the first symbol valued at the entry point is named sp_main.
  lemma AcceptsExactly(m: seq<u8>, elf: nat, length: nat, h: FileHeader, ps: seq<ProgramHeader>,
                       ss: seq<SectionHeader>, symtab: nat, strtab: nat, symbols: seq<Symbol>, j: nat)
    requires Image(m, elf, length, h, ps, ss) && TablesFit(m, elf, length) && SymbolsFit(m, elf, length)
    requires LastOf(ss, 2, -1, symtab) && LastOf(ss, 3, h.shstrndx, strtab) && |symbols| == ss[symtab].size / 16
    requires forall i | 0 <= i < |symbols| :: Holds(m, elf + ss[symtab].offset + 16 * i, SymbolBytes(symbols[i]))
    requires j <= |symbols| && forall i | 0 <= i < j :: symbols[i].value != h.entry
    requires j < |symbols| ==> symbols[j].value == h.entry
    ensures Accepts(m, elf, length) <==>
              && j < |symbols|
              && Holds(m, elf + ss[strtab].offset + symbols[j].name, [115, 112, 95, 109, 97, 105, 110, 0])
  {
    hide Get32, Get16, SectionAt, Image, LastSection, Holds, SymbolBytes, FirstSymbol, Accepts, NameIs, SymbolsFit;
    ImageFits(m, elf, length, h, ps, ss);
    LastIs(m, elf, length, h, ps, ss, 2, -1, symtab);
    LastIs(m, elf, length, h, ps, ss, 3, h.shstrndx, strtab);
    SectionRead(m, elf, length, h, ps, ss, symtab);
    SectionRead(m, elf, length, h, ps, ss, strtab);
    var p := elf + ss[symtab].offset;
    TablesRead(m, elf, length, symtab, strtab, p, |symbols|, elf + ss[strtab].offset);
    SymbolsRead(m, p, symbols);
    FirstIs(m, p, symbols, h.entry, j);
    if j < |symbols| {
      SpelledOut(m, elf + ss[strtab].offset + symbols[j].name);
    }
  }

  // Without either table it is rejected.
  lemma RejectsExactly(m: seq<u8>, elf: nat, length: nat, h: FileHeader, ps: seq<ProgramHeader>,
                       ss: seq<SectionHeader>)
    requires Image(m, elf, length, h, ps, ss) && TablesFit(m, elf, length) && SymbolsFit(m, elf, length)
    requires (forall k: nat :: !LastOf(ss, 2, -1, k)) || (forall k: nat :: !LastOf(ss, 3, h.shstrndx, k))
    ensures !Accepts(m, elf, length)
  {
    ImageFits(m, elf, length, h, ps, ss);
    hide Get32, Get16, SectionAt, Image, LastSection, LastOf;
    var a, b := SymbolTable(m, elf, length), StringTable(m, elf, length);
    if a.Some? {
      LastIs(m, elf, length, h, ps, ss, 2, -1, a.value);
    }
    if b.Some? {
      LastIs(m, elf, length, h, ps, ss, 3, h.shstrndx, b.value);
    }
  }
}

/** The root directory of a FAT16 volume: 8.3 names as C strings, the flat list of entries, search and listing. */
module FatDirectory {
  import opened Machine
  import opened Bytes
  import opened FatVolume

  const ENTRY: nat := 32      // sizeof(FAT16_DirEntry)
  const PER_SECTOR: nat := 16
  const SPACE: u8 := 32
  const DOT: u8 := 46
  const UNDERSCORE: u8 := 95

  type Entry = e: seq<u8> | |e| == ENTRY witness seq(ENTRY, _ => 0)

  // ---------- Names ----------

  // Trailing blanks become NULs.
  function TrimPad(s: seq<u8>): (t: seq<u8>)
    ensures |t| == |s|
  {
    if s != [] && s[|s| - 1] == SPACE then TrimPad(s[..|s| - 1]) + [0] else s
  }

  // The 13 bytes of the name buffer: base, dot, extension, NUL.
  function RawName(e: Entry): seq<u8> {
    TrimPad(e[..8]) + [DOT] + TrimPad(e[8..11]) + [0]
  }

  // The C string in a buffer.
  function CStr(s: seq<u8>): (t: seq<u8>)
    ensures 0 !in t && |t| <= |s| && t == s[..|t|] && (|t| < |s| ==> s[|t|] == 0)
  {
    if s == [] || s[0] == 0 then [] else [s[0]] + CStr(s[1..])
  }

  function Name(e: Entry): (n: seq<u8>)
    ensures 0 !in n
  {
    CStr(RawName(e))
  }

  lemma {:induction false} CStrAppend(s: seq<u8>, t: seq<u8>)
    ensures CStr(s + t) == if 0 in s then CStr(s) else s + CStr(t)
    decreases |s|
  {
    if s == [] {
      assert s + t == t;
    } else {
      assert (s + t)[1..] == s[1..] + t;
      if s[0] != 0 {
        CStrAppend(s[1..], t);
        assert 0 in s <==> 0 in s[1..];
      }
    }
  }

  lemma {:induction false} TrimPadEnds(s: seq<u8>)
    requires s != []
    ensures 0 in TrimPad(s) <==> 0 in s || s[|s| - 1] == SPACE
    ensures s[|s| - 1] != SPACE ==> TrimPad(s) == s
    ensures s[0] != SPACE ==> TrimPad(s)[0] == s[0]
    ensures TrimPad(s)[0] == s[0] || TrimPad(s)[0] == 0
    decreases |s|
  {
    if s[|s| - 1] == SPACE {
      assert TrimPad(s)[|s| - 1] == 0;
      if |s| > 1 {
        TrimPadEnds(s[..|s| - 1]);
      }
    }
  }

  lemma CStrOfTerminated(s: seq<u8>)
    ensures CStr(s + [0]) == CStr(s)
  {
    CStrAppend(s, [0]);
    CStrAppend(s, []);
    assert s + [] == s && CStr([0]) == CStr([]);
  }

  lemma RawSplit(e: Entry)
    ensures Name(e) == CStr(TrimPad(e[..8]) + ([DOT] + (TrimPad(e[8..11]) + [0])))
  {
    hide CStr, TrimPad;
    assert RawName(e) == TrimPad(e[..8]) + ([DOT] + (TrimPad(e[8..11]) + [0]));
  }

  lemma DotAndExtension(ext: seq<u8>)
    ensures CStr([DOT] + (ext + [0])) == [DOT] + CStr(ext)
  {
    CStrOfTerminated(ext);
    CStrAppend([DOT], ext + [0]);
  }

  // Only a base of eight characters keeps its dot and extension: a shorter one is padded, and the
  // padding ends the C string.
  lemma NameShape(e: Entry)
    ensures var base := e[..8];
      Name(e) == if 0 in base || base[7] == SPACE then CStr(TrimPad(base)) else base + [DOT] + CStr(TrimPad(e[8..11]))
  {
    hide CStr, TrimPad, Name;
    var base, ext := e[..8], TrimPad(e[8..11]);
    RawSplit(e);
    TrimPadEnds(base);
    DotAndExtension(ext);
    CStrAppend(TrimPad(base), [DOT] + (ext + [0]));
    assert base + ([DOT] + CStr(ext)) == base + [DOT] + CStr(ext);
  }

  // ---------- The 8.3 name of the FAT specification ----------

  // Without trailing blanks.
  function Trim(s: seq<u8>): seq<u8> {
    if s != [] && s[|s| - 1] == SPACE then Trim(s[..|s| - 1]) else s
  }

  // A first byte of 5 stands for the character 0xE5, which would mark the entry as deleted.
  function Base83(e: Entry): seq<u8> {
    Trim(if e[0] == 0x05 then [0xE5] + e[1..8] else e[..8])
  }

  // Base and extension without their padding, and a dot between them if there is an extension.
  function Name83(e: Entry): seq<u8> {
    var ext := Trim(e[8..11]);
    if ext == [] then Base83(e) else Base83(e) + [DOT] + ext
  }

  // The exact condition for the code to use the 8.3 name: an extension stands behind a base of eight
  // characters, and only there; no byte of the name is NUL or the substitute for 0xE5.
  predicate Keeps83(e: Entry) {
    0 !in e[..11] && e[0] != 0x05 && (e[7] == SPACE <==> Trim(e[8..11]) == [])
  }

  lemma {:induction false} TrimKeeps(s: seq<u8>)
    ensures |Trim(s)| <= |s| && Trim(s) == s[..|Trim(s)|]
    ensures forall i | |Trim(s)| <= i < |s| :: s[i] == SPACE
    ensures s != [] ==> (Trim(s) == s <==> s[|s| - 1] != SPACE)
    decreases |s|
  {
    if s != [] && s[|s| - 1] == SPACE {
      TrimKeeps(s[..|s| - 1]);
    }
  }

  lemma {:induction false} PaddedIsTrimmed(s: seq<u8>)
    requires 0 !in s
    ensures CStr(TrimPad(s)) == Trim(s)
    decreases |s|
  {
    if s != [] && s[|s| - 1] == SPACE {
      PaddedIsTrimmed(s[..|s| - 1]);
      CStrOfTerminated(TrimPad(s[..|s| - 1]));
    } else {
      CStrAppend(s, []);
      assert s + [] == s && CStr([]) == [];
    }
  }

  // A NUL is no blank, so it survives in the 8.3 name; no C string has one.
  lemma NulStays(e: Entry)
    requires 0 in e[..11] && e[0] != 0x05
    ensures 0 in Name83(e)
  {
    hide Trim;
    TrimKeeps(e[..8]);
    TrimKeeps(e[8..11]);
    var base, ext := Trim(e[..8]), Trim(e[8..11]);
    var i :| 0 <= i < 11 && e[i] == 0;
    if i < 8 {
      assert e[..8][i] == 0 && base[i] == 0;
      assert Name83(e)[i] == 0;
    } else {
      assert e[8..11][i - 8] == 0 && ext[i - 8] == 0;
      assert Name83(e)[|base| + 1 + (i - 8)] == 0;
    }
  }

  // Without a NUL and the substitute: what the code makes of the name.
  lemma CodedName(e: Entry)
    requires 0 !in e[..11] && e[0] != 0x05
    ensures Base83(e) == Trim(e[..8])
    ensures Name(e) == if e[7] == SPACE then Trim(e[..8]) else e[..8] + [DOT] + Trim(e[8..11])
    ensures e[7] != SPACE ==> Trim(e[..8]) == e[..8]
  {
    hide Trim, CStr, TrimPad, Name;
    NameShape(e);
    assert forall i | 0 <= i < 8 :: e[..8][i] == e[..11][i];
    assert forall i | 0 <= i < 3 :: e[8..11][i] == e[..11][8 + i];
    PaddedIsTrimmed(e[..8]);
    PaddedIsTrimmed(e[8..11]);
    TrimKeeps(e[..8]);
  }

  function Fold(c: u8): u8 {
    if 65 <= c <= 90 then c + 32 else c
  }

  // Equal up to the case of ASCII letters.
  ghost predicate SameFold(s: seq<u8>, t: seq<u8>) {
    |s| == |t| && forall i | 0 <= i < |s| :: Fold(s[i]) == Fold(t[i])
  }

  lemma NulDiffers(s: seq<u8>, t: seq<u8>)
    requires 0 !in s && 0 in t
    ensures !SameFold(s, t)
  {
    var i :| 0 <= i < |t| && t[i] == 0;
    assert i < |s| ==> s[i] in s && Fold(s[i]) != 0;
  }

  lemma Bytes11(e: Entry)
    ensures e[..11] == e[..8] + e[8..11] && e[0] == e[..8][0] && e[7] == e[..8][7]
  {
  }

  lemma BlankIsEmpty()
    ensures Trim([32, 32, 32]) == []
  {
    var s: seq<u8> := [32, 32, 32];
    assert s[..2][..1][..0] == [];
    assert Trim(s) == Trim(s[..2]) == Trim(s[..2][..1]) == Trim(s[..2][..1][..0]);
  }

  // Inputs that fail: "README  TXT" loses its extension, and "ABCDEFGH" without one gains a dot.
  lemma ShortBaseFails(e: Entry)
    requires e[..8] == [82, 69, 65, 68, 77, 69, 32, 32] && e[8..11] == [84, 88, 84]
    ensures Name(e) == [82, 69, 65, 68, 77, 69]
    ensures Name83(e) == [82, 69, 65, 68, 77, 69, 46, 84, 88, 84]
  {
    Bytes11(e);
    CodedName(e);
    var base: seq<u8> := [82, 69, 65, 68, 77, 69, 32, 32];
    assert base[..7][..6] == [82, 69, 65, 68, 77, 69];
    assert Trim(base) == Trim(base[..7]) == Trim(base[..7][..6]) == [82, 69, 65, 68, 77, 69];
    assert Trim([84, 88, 84]) == [84, 88, 84];
  }

  lemma NoExtensionFails(e: Entry)
    requires e[..8] == [65, 66, 67, 68, 69, 70, 71, 72] && e[8..11] == [32, 32, 32]
    ensures Name(e) == [65, 66, 67, 68, 69, 70, 71, 72, 46]
    ensures Name83(e) == [65, 66, 67, 68, 69, 70, 71, 72]
  {
    Bytes11(e);
    CodedName(e);
    BlankIsEmpty();
  }

  // A substituted first byte shows in the coded name.
  lemma SubstituteShows(e: Entry)
    requires e[0] == 0x05
    ensures Name(e) != [] && Name(e)[0] == 0x05
    ensures Base83(e) != [] && Name83(e)[0] == 0xE5
  {
    TrimPadEnds(e[..8]);
    hide Trim, TrimPad;
    assert RawName(e)[0] == TrimPad(e[..8])[0] == 0x05;
    assert CStr(RawName(e)) != [];
    var base := [0xE5 as u8] + e[1..8];
    TrimKeeps(base);
    assert base[0] == 0xE5;
  }

  // The code's name of an entry is its 8.3 name, case aside or not, exactly under Keeps83.
  lemma NameIs83(e: Entry)
    ensures Name(e) == Name83(e) <==> Keeps83(e)
    ensures SameFold(Name(e), Name83(e)) <==> Keeps83(e)
  {
    hide Trim, Name, Base83;
    if e[0] == 0x05 {
      SubstituteShows(e);
    } else if 0 in e[..11] {
      NulStays(e);
      NulDiffers(Name(e), Name83(e));
    } else {
      CodedName(e);
      assert Trim(e[8..11]) == [] ==> |e[..8] + [DOT] + Trim(e[8..11])| == |e[..8]| + 1;
    }
  }

  // ---------- The flat directory ----------

  // Entry k of the root directory lies in one sector.
  function EntryAt(d: Disk, g: Geometry, k: nat): Entry
    requires RootSector(g, k / PER_SECTOR) in d
  {
    var at := ENTRY * (k % PER_SECTOR);
    d[RootSector(g, k / PER_SECTOR)][at..at + ENTRY]
  }

  // Nothing is seen from an unreadable sector on, or from the end marker on.
  predicate Stops(d: Disk, g: Geometry, k: nat) {
    RootSector(g, k / PER_SECTOR) !in d || EntryAt(d, g, k)[0] == 0
  }

  // Deleted entries, long-name entries and names that start with an underscore are passed over.
  predicate Hidden(e: Entry) {
    e[0] == 0xE5 || e[11] == 0x0F || e[0] == UNDERSCORE
  }

  ghost predicate Matches(e: Entry, target: seq<u8>) {
    !Hidden(e) && SameFold(Name(e), target)
  }

  ghost predicate MatchesAt(d: Disk, g: Geometry, k: nat, target: seq<u8>) {
    !Stops(d, g, k) && Matches(EntryAt(d, g, k), target)
  }

  // The search over the flat directory, from entry k on.
  ghost function Search(d: Disk, g: Geometry, target: seq<u8>, k: nat): Option<nat>
    decreases g.rootEntries - k
  {
    if k >= g.rootEntries || Stops(d, g, k) then None
    else if MatchesAt(d, g, k, target) then Some(k)
    else Search(d, g, target, k + 1)
  }

  // Entry j is the first from k on that matches, and the directory does not end before it.
  ghost predicate IsFirst(d: Disk, g: Geometry, target: seq<u8>, k: nat, j: nat) {
    && k <= j < g.rootEntries && MatchesAt(d, g, j, target)
    && forall i | k <= i < j :: !Stops(d, g, i) && !MatchesAt(d, g, i, target)
  }

  lemma MatchIsVisible(d: Disk, g: Geometry, target: seq<u8>, k: nat)
    ensures MatchesAt(d, g, k, target) ==> !Stops(d, g, k)
  {
  }

  lemma {:induction false} SearchIsFirst(d: Disk, g: Geometry, target: seq<u8>, k: nat, j: nat)
    ensures Search(d, g, target, k) == Some(j) <==> IsFirst(d, g, target, k, j)
    decreases g.rootEntries - k
  {
    hide MatchesAt, Stops;
    if k < g.rootEntries && !Stops(d, g, k) && !MatchesAt(d, g, k, target) {
      SearchIsFirst(d, g, target, k + 1, j);
    } else {
      MatchIsVisible(d, g, target, k);
      MatchIsVisible(d, g, target, j);
    }
  }

  predicate IsListed(e: Entry) {
    !Hidden(e) && Get32(e, 28) > 0
  }

  // The names that a listing prints from entry k on.
  function Listing(d: Disk, g: Geometry, k: nat): seq<seq<u8>>
    decreases g.rootEntries - k
  {
    if k >= g.rootEntries || Stops(d, g, k) then []
    else (if IsListed(EntryAt(d, g, k)) then [Name(EntryAt(d, g, k))] else []) + Listing(d, g, k + 1)
  }

  // Every listed name is found again, at an entry of that name, case aside.
  lemma {:induction false} ListedIsFound(d: Disk, g: Geometry, name: seq<u8>, k: nat)
    requires name in Listing(d, g, k)
    ensures Search(d, g, name, k).Some?
    ensures MatchesAt(d, g, Search(d, g, name, k).value, name)
    decreases g.rootEntries - k
  {
    var e := EntryAt(d, g, k);
    if !(IsListed(e) && name == Name(e)) {
      ListedIsFound(d, g, name, k + 1);
    }
  }

  // What is found is listed, when it is not empty.
  lemma {:induction false} FoundIsListed(d: Disk, g: Geometry, target: seq<u8>, k: nat, j: nat)
    requires Search(d, g, target, k) == Some(j) && RootSector(g, j / PER_SECTOR) in d
    requires Get32(EntryAt(d, g, j), 28) > 0
    ensures Name(EntryAt(d, g, j)) in Listing(d, g, k)
    decreases g.rootEntries - k
  {
    if !MatchesAt(d, g, k, target) {
      FoundIsListed(d, g, target, k + 1, j);
    }
  }

  // Searching for the 8.3 name of a visible entry finds that entry exactly when the code keeps the name, the
  // entry is not passed over, and none before it goes by that name or ends the directory.
  lemma SearchBy83(d: Disk, g: Geometry, k: nat)
    requires k < g.rootEntries && !Stops(d, g, k)
    ensures var e := EntryAt(d, g, k);
      Search(d, g, Name83(e), 0) == Some(k) <==>
        && !Hidden(e) && Keeps83(e)
        && forall i | 0 <= i < k :: !Stops(d, g, i) && !MatchesAt(d, g, i, Name83(e))
  {
    hide Name83, Keeps83, Name, SameFold, Hidden, EntryAt;
    var e := EntryAt(d, g, k);
    NameIs83(e);
    SearchIsFirst(d, g, Name83(e), 0, k);
    assert MatchesAt(d, g, k, Name83(e)) <==> !Hidden(e) && Keeps83(e);
    hide MatchesAt, Stops;
  }

  // ---------- What the bytes of the root directory mean ----------

  // A directory entry, field by field; the 14 bytes in the middle are of no concern here.
  lemma EntryRead(e: Entry, name: seq<u8>, ext: seq<u8>, attributes: u8, middle: seq<u8>, cluster: u16, size: u32)
    requires |name| == 8 && |ext| == 3 && |middle| == 14
    requires e == name + ext + [attributes] + middle + Le16(cluster) + Le32(size)
    ensures Hidden(e) <==> name[0] == 0xE5 || attributes == 0x0F || name[0] == 95
    ensures IsListed(e) <==> !(name[0] == 0xE5 || attributes == 0x0F || name[0] == 95) && size > 0
    ensures e[..8] == name && e[8..11] == ext
  {
    hide Le16, Le32, Get32;
    assert e[0] == name[0] && e[11] == attributes;
    assert e[28..32] == Le32(size);
    ReadLe32(e, 28, size);
  }

  // The entries fill the sectors behind the FATs one after the other, sixteen to a sector.
  lemma EntryOnDisk(d: Disk, g: Geometry, q: nat, j: nat)
    requires j < 16
    ensures var lba := (g.partition + (g.reserved + g.numFats * g.fatSize) + q) % U32;
      && (Stops(d, g, 16 * q + j) <==> lba !in d || d[lba][32 * j] == 0)
      && (lba in d ==>
            RootSector(g, (16 * q + j) / 16) in d && EntryAt(d, g, 16 * q + j) == d[lba][32 * j..32 * j + 32])
  {
    assert (16 * q + j) / 16 == q && (16 * q + j) % 16 == j;
  }

  // Letters are equal when they differ in case only, and nothing else is.
  lemma FoldExact(c: u8, e: u8)
    ensures Fold(c) == Fold(e) <==> c == e || (65 <= c <= 90 && e == c + 32) || (65 <= e <= 90 && c == e + 32)
  {
  }

  // Entry k is reached: no sector before it is unreadable and no entry before it ends the directory.
  ghost predicate Reached(d: Disk, g: Geometry, k: nat) {
    k < g.rootEntries && forall i | 0 <= i <= k :: !Stops(d, g, i)
  }

  lemma ReachedFrom(d: Disk, g: Geometry, k: nat, j: nat)
    requires Reached(d, g, j) && k <= j
    ensures k < g.rootEntries && !Stops(d, g, k)
  {
  }

  lemma ReachedNext(d: Disk, g: Geometry, k: nat)
    requires (k == 0 || Reached(d, g, k - 1)) && k < g.rootEntries && !Stops(d, g, k)
    ensures Reached(d, g, k)
  {
    hide Stops;
  }

  ghost predicate ListedAt(d: Disk, g: Geometry, name: seq<u8>, j: nat) {
    && Reached(d, g, j) && !Stops(d, g, j)
    && IsListed(EntryAt(d, g, j)) && Name(EntryAt(d, g, j)) == name
  }

  // A name is listed exactly when an entry that is reached, visible and not empty has it.
  lemma {:induction false} ListedExactly(d: Disk, g: Geometry, name: seq<u8>, k: nat)
    requires k == 0 || Reached(d, g, k - 1)
    ensures name in Listing(d, g, k) <==> exists j :: k <= j && ListedAt(d, g, name, j)
    decreases g.rootEntries - k
  {
    hide Reached, IsListed, Name;
    if k < g.rootEntries && !Stops(d, g, k) {
      ReachedNext(d, g, k);
      ListedExactly(d, g, name, k + 1);
      var e := EntryAt(d, g, k);
      assert name in Listing(d, g, k) <==> (IsListed(e) && Name(e) == name) || name in Listing(d, g, k + 1);
      assert ListedAt(d, g, name, k) <==> IsListed(e) && Name(e) == name;
    } else if j :| k <= j && ListedAt(d, g, name, j) {
      ReachedFrom(d, g, k, j);
    }
  }
}

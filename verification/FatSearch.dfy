/** fat_find_file and fat_list_files: sector by sector through the root directory, over the reader's buffer. */
module FatSearch {
  import opened Machine
  import opened Bytes
  import opened FatVolume
  import opened FatReader
  import opened FatDirectory

  lemma TrimStep(s: seq<u8>, tail: seq<u8>)
    requires s != [] && s[|s| - 1] == SPACE
    ensures TrimPad(s) + tail == TrimPad(s[..|s| - 1]) + ([0] + tail)
  {
  }

  lemma TrimDone(m: seq<u8>, r: seq<u8>, lo: nat, hi: nat, k: nat, tail: seq<u8>)
    requires lo <= k <= hi <= |m| && |r| == |m| && |tail| == hi - k && forall i | 0 <= i < |tail| :: tail[i] == 0
    requires forall i | 0 <= i < |m| :: r[i] == if k <= i < hi then 0 else m[i]
    requires TrimPad(m[lo..hi][..k - lo]) + tail == TrimPad(m[lo..hi]) && (lo < k ==> m[k - 1] != SPACE)
    ensures r == m[..lo] + TrimPad(m[lo..hi]) + m[hi..]
  {
    var kept := m[lo..hi][..k - lo];
    assert TrimPad(kept) == kept;
    hide TrimPad;
    assert r == m[..lo] + (kept + tail) + m[hi..];
  }

  // Blanks at the end of name[lo..hi] become NULs.
  method TrimBlanks(name: array<u8>, lo: nat, hi: nat)
    requires lo < hi <= name.Length
    modifies name
    ensures name[..] == old(name[..lo]) + TrimPad(old(name[lo..hi])) + old(name[hi..])
  {
    hide TrimPad;
    ghost var m, s, tail := name[..], name[lo..hi], [];
    var j := hi - 1;
    assert s[..hi - lo] == s && TrimPad(s) + tail == TrimPad(s);
    while j >= lo && name[j] == SPACE
      invariant lo - 1 <= j < hi && |tail| == hi - 1 - j && forall i | 0 <= i < |tail| :: tail[i] == 0
      invariant forall i | 0 <= i < name.Length :: name[i] == if j < i < hi then 0 else m[i]
      invariant TrimPad(s[..j + 1 - lo]) + tail == TrimPad(s)
      decreases j
    {
      TrimStep(s[..j + 1 - lo], tail);
      assert s[..j + 1 - lo][..j - lo] == s[..j - lo];
      name[j] := 0;
      tail := [0] + tail;
      j := j - 1;
    }
    TrimDone(m, name[..], lo, hi, j + 1, tail);
  }

  // memcpy between the sector buffer and the name buffer.
  method CopyBytes(to: array<u8>, i: nat, from: array<u8>, j: nat, n: nat)
    requires to != from && i + n <= to.Length && j + n <= from.Length
    modifies to
    ensures forall k | 0 <= k < to.Length :: to[k] == if i <= k < i + n then from[j + (k - i)] else old(to[k])
  {
    for l := 0 to n
      invariant forall k | 0 <= k < to.Length :: to[k] == if i <= k < i + l then from[j + (k - i)] else old(to[k])
    {
      to[i + l] := from[j + l];
    }
  }

  // The name buffer with base, dot and extension copied into it.
  lemma NameParts(e: Entry, r: seq<u8>)
    requires |r| == 13 && (forall k | 0 <= k < 8 :: r[k] == e[k]) && r[8] == DOT
    requires (forall k | 9 <= k < 12 :: r[k] == e[k - 1]) && r[12] == 0
    ensures r[..0] == [] && r[0..8] == e[..8] && r[8..] == [DOT] + e[8..11] + [0]
  {
  }

  // And with its base trimmed.
  lemma TrimmedParts(e: Entry, r: seq<u8>, r1: seq<u8>)
    requires |r| == 13 && r[..0] == [] && r[8..] == [DOT] + e[8..11] + [0] && r[0..8] == e[..8]
    requires r1 == r[..0] + TrimPad(r[0..8]) + r[8..]
    ensures |r1| == 13 && r1[..9] == TrimPad(e[..8]) + [DOT] && r1[9..12] == e[8..11] && r1[12..] == [0]
  {
    hide TrimPad;
    var tail := [DOT] + e[8..11] + [0];
    assert r1 == TrimPad(e[..8]) + tail;
    assert r1[8] == tail[0] && r1[12] == tail[4];
    assert forall i | 9 <= i < 12 :: r1[i] == tail[i - 8] == e[8..11][i - 9];
  }

  // The 13-byte name buffer for the entry at buf[at..].
  method BuildName(buf: array<u8>, at: nat) returns (name: array<u8>)
    requires at + ENTRY <= buf.Length
    ensures fresh(name) && name[..] == RawName(buf[at..at + ENTRY])
  {
    hide TrimPad;
    ghost var e := buf[at..at + ENTRY];
    name := new u8[13](_ => 0);
    CopyBytes(name, 0, buf, at, 8);
    name[8] := DOT;
    CopyBytes(name, 9, buf, at + 8, 3);
    assert forall k | 0 <= k < 8 :: name[k] == buf[at + k] == e[k];
    assert forall k | 9 <= k < 12 :: name[k] == buf[at + k - 1] == e[k - 1];
    NameParts(e, name[..]);
    ghost var full := name[..];
    TrimBlanks(name, 0, 8);
    TrimmedParts(e, full, name[..]);
    TrimBlanks(name, 9, 12);
  }

  // The name buffer of an entry, unless the entry is passed over.
  method VisibleName(buf: array<u8>, at: nat) returns (hidden: bool, name: array<u8>)
    requires at + ENTRY <= buf.Length
    ensures hidden <==> Hidden(buf[at..at + ENTRY])
    ensures fresh(name) && (!hidden ==> name[..] == RawName(buf[at..at + ENTRY]))
  {
    if buf[at] == 0xE5 || buf[at + 11] == 0x0F {
      name := new u8[0];
      return true, name;
    }
    name := BuildName(buf, at);
    TrimPadEnds(buf[at..at + ENTRY][..8]);
    hidden := name[0] == UNDERSCORE;
  }

  lemma {:induction false} CStrLength(s: seq<u8>, k: nat)
    requires k <= |s| && (forall i | 0 <= i < k :: s[i] != 0) && (k < |s| ==> s[k] == 0)
    ensures |CStr(s)| == k && CStr(s) == s[..k]
    decreases |s|
  {
    if s != [] && s[0] != 0 {
      CStrLength(s[1..], k - 1);
    }
  }

  lemma {:induction false} LongerThan(s: seq<u8>, i: nat)
    requires i < |s| && forall j | 0 <= j <= i :: s[j] != 0
    ensures |CStr(s)| > i && CStr(s)[i] == s[i]
    decreases i
  {
    if i > 0 {
      LongerThan(s[1..], i - 1);
    }
  }

  lemma NotSameFold(s: seq<u8>, target: seq<u8>, i: nat)
    requires i < |s| && i < |target| && Fold(s[i]) != Fold(target[i]) && forall j | 0 <= j <= i :: s[j] != 0
    ensures !SameFold(CStr(s), target)
  {
    LongerThan(s, i);
  }

  // strcmpi of the C string in a buffer with another.
  method Strcmpi(name: array<u8>, target: seq<u8>) returns (diff: int)
    requires 0 in name[..] && 0 !in target
    ensures diff == 0 <==> SameFold(CStr(name[..]), target)
  {
    ghost var s := name[..];
    ghost var n :| 0 <= n < |s| && s[n] == 0;
    var i := 0;
    while name[i] != 0 && i < |target|
      invariant i <= n && i <= |target| && (forall j | 0 <= j < i :: name[j] != 0 && Fold(name[j]) == Fold(target[j]))
      decreases n - i
    {
      if Fold(name[i]) != Fold(target[i]) {
        NotSameFold(s, target, i);
        return Fold(name[i]) as int - Fold(target[i]) as int;
      }
      i := i + 1;
    }
    assert i < |target| ==> target[i] in target;
    if name[i] == 0 {
      CStrLength(s, i);
    } else {
      LongerThan(s, i);
    }
    return name[i] as int - (if i < |target| then target[i] else 0) as int;
  }

  // fat_init_from_bpb on a freshly read boot sector.
  method InitFromBpb(r: Reader) returns (ok: bool)
    requires r.buf.Length == SECTOR
    modifies r, r.buf
    ensures ok <==> old(r.geo.partition) in r.disk
    ensures ok ==> r.geo == ParseBpb(old(r.geo.partition), r.disk[old(r.geo.partition)])
    ensures !ok ==> r.geo == old(r.geo)
  {
    ok := r.ReadDisk(r.geo.partition);
    if ok {
      var bytesPerSector := Load16(r.buf, 11);
      var reserved := Load16(r.buf, 14);
      var rootEntries := Load16(r.buf, 17);
      var fatSize := Load16(r.buf, 22);
      r.geo := Geometry(r.geo.partition, bytesPerSector, r.buf[13], reserved, r.buf[16], fatSize, rootEntries);
    }
  }

  // The number of sectors of the root directory.
  method SectorCount(g: Geometry) returns (sectors: nat)
    requires Usable(g)
    ensures sectors == RootDirSectors(g)
  {
    sectors := (g.rootEntries * 32 + (g.bytesPerSector - 1)) / g.bytesPerSector;
  }

  // A sector of the root directory starts inside it, and none is left behind the last.
  lemma SectorStarts(g: Geometry, sec: nat)
    requires Usable(g)
    ensures sec < RootDirSectors(g) ==> PER_SECTOR * sec < g.rootEntries && PER_SECTOR * sec / PER_SECTOR == sec
    ensures sec == RootDirSectors(g) ==> PER_SECTOR * sec >= g.rootEntries
  {
    hide RootDirSectors;
    RootHoldsEntries(g);
  }

  // One entry of the search.
  method TestEntry(buf: array<u8>, at: nat, target: seq<u8>) returns (hit: bool)
    requires at + ENTRY <= buf.Length && 0 !in target
    ensures hit <==> Matches(buf[at..at + ENTRY], target)
  {
    var hidden, name := VisibleName(buf, at);
    if hidden {
      return false;
    }
    assert name[12] == 0 && name[12] in name[..];
    var diff := Strcmpi(name, target);
    return diff == 0;
  }

  lemma SlotInSector(d: Disk, g: Geometry, sec: nat, i: nat)
    requires RootSector(g, sec) in d && i < PER_SECTOR
    ensures (PER_SECTOR * sec + i) / PER_SECTOR == sec
    ensures EntryAt(d, g, PER_SECTOR * sec + i) == d[RootSector(g, sec)][ENTRY * i..ENTRY * i + ENTRY]
  {
  }

  lemma SearchStep(d: Disk, g: Geometry, target: seq<u8>, k: nat)
    requires k < g.rootEntries
    ensures Search(d, g, target, k)
            == if Stops(d, g, k) then None
               else if MatchesAt(d, g, k, target) then Some(k)
               else Search(d, g, target, k + 1)
  {
  }

  lemma SearchSlot(d: Disk, g: Geometry, target: seq<u8>, sec: nat, i: nat)
    requires RootSector(g, sec) in d && i < PER_SECTOR && PER_SECTOR * sec + i < g.rootEntries
    ensures var k, e := PER_SECTOR * sec + i, d[RootSector(g, sec)][ENTRY * i..ENTRY * i + ENTRY];
      Search(d, g, target, k)
      == if e[0] == 0 then None else if Matches(e, target) then Some(k) else Search(d, g, target, k + 1)
  {
    SlotInSector(d, g, sec, i);
    SearchStep(d, g, target, PER_SECTOR * sec + i);
    hide Search, Matches, RootSector;
  }

  lemma SearchPastEnd(d: Disk, g: Geometry, target: seq<u8>, k: nat)
    requires k >= g.rootEntries
    ensures Search(d, g, target, k) == None
  {
  }

  // The entries of the sector in the buffer, as many as are left.
  method FindInSector(r: Reader, target: seq<u8>, sec: nat, total0: nat)
      returns (entry: Option<nat>, done: bool, total: nat)
    requires r.buf.Length == SECTOR && Usable(r.geo) && 0 !in target
    requires RootSector(r.geo, sec) in r.disk && r.buf[..] == r.disk[RootSector(r.geo, sec)]
    requires total0 == Max(r.geo.rootEntries - PER_SECTOR * sec, 0)
    ensures entry.Some? ==>
              done && entry.value < SECTOR && entry.value % ENTRY == 0
              && Search(r.disk, r.geo, target, PER_SECTOR * sec) == Some(PER_SECTOR * sec + entry.value / ENTRY)
    ensures entry.None? && done ==> Search(r.disk, r.geo, target, PER_SECTOR * sec) == None
    ensures !done ==>
              && Search(r.disk, r.geo, target, PER_SECTOR * sec)
                 == Search(r.disk, r.geo, target, PER_SECTOR * (sec + 1))
              && total == Max(r.geo.rootEntries - PER_SECTOR * (sec + 1), 0)
  {
    hide Search, Stops, MatchesAt, Matches, EntryAt, RootSector;
    entry, done, total := None, false, total0;
    var n := r.geo.bytesPerSector / ENTRY;
    var i: nat := 0;
    while i < n && total > 0
      invariant i <= n == PER_SECTOR && total == Max(r.geo.rootEntries - (PER_SECTOR * sec + i), 0)
      invariant Search(r.disk, r.geo, target, PER_SECTOR * sec) == Search(r.disk, r.geo, target, PER_SECTOR * sec + i)
    {
      SearchSlot(r.disk, r.geo, target, sec, i);
      total := total - 1;
      if r.buf[ENTRY * i] == 0 {
        return None, true, total;
      }
      var hit := TestEntry(r.buf, ENTRY * i, target);
      if hit {
        return Some(ENTRY * i), true, total;
      }
      i := i + 1;
    }
    if i < n {
      SearchPastEnd(r.disk, r.geo, target, PER_SECTOR * sec + i);
      SearchPastEnd(r.disk, r.geo, target, PER_SECTOR * (sec + 1));
    }
  }

  lemma SearchUnreadable(d: Disk, g: Geometry, target: seq<u8>, sec: nat)
    requires RootSector(g, sec) !in d
    ensures Search(d, g, target, PER_SECTOR * sec) == None
  {
    assert PER_SECTOR * sec / PER_SECTOR == sec;
  }

  // The entry found in a sector is the one the search finds.
  lemma FoundInSector(d: Disk, g: Geometry, target: seq<u8>, sec: nat, at: nat)
    requires RootSector(g, sec) in d && at < SECTOR && at % ENTRY == 0
    requires Search(d, g, target, 0) == Some(PER_SECTOR * sec + at / ENTRY)
    ensures var k := PER_SECTOR * sec + at / ENTRY;
      !Stops(d, g, k) && at + ENTRY <= SECTOR && EntryAt(d, g, k) == d[RootSector(g, sec)][at..at + ENTRY]
  {
    hide Search, MatchesAt, RootSector;
    SearchIsFirst(d, g, target, 0, PER_SECTOR * sec + at / ENTRY);
    SlotInSector(d, g, sec, at / ENTRY);
    MatchIsVisible(d, g, target, PER_SECTOR * sec + at / ENTRY);
  }

  // fat_find_file is the search over the flat directory; the entry it returns is in the buffer.
  method FindFile(r: Reader, target: seq<u8>) returns (entry: Option<nat>)
    requires r.buf.Length == SECTOR && 0 !in target
    requires r.geo.partition in r.disk ==> Usable(ParseBpb(r.geo.partition, r.disk[r.geo.partition]))
    modifies r, r.buf
    ensures old(r.geo.partition) !in r.disk ==> entry == None
    ensures old(r.geo.partition) in r.disk ==>
      && r.geo == ParseBpb(old(r.geo.partition), r.disk[old(r.geo.partition)])
      && (entry.None? <==> Search(r.disk, r.geo, target, 0).None?)
      && (entry.Some? ==>
            var k := Search(r.disk, r.geo, target, 0).value;
            && !Stops(r.disk, r.geo, k) && entry.value + ENTRY <= SECTOR
            && r.buf[entry.value..entry.value + ENTRY] == EntryAt(r.disk, r.geo, k))
  {
    hide Search, Stops, MatchesAt, EntryAt, RootSector, RootDirSectors, ParseBpb;
    var ok := InitFromBpb(r);
    if !ok {
      return None;
    }
    var total: nat := r.geo.rootEntries;
    var sectors := SectorCount(r.geo);
    var sec: nat := 0;
    while sec < sectors
      invariant r.geo == ParseBpb(old(r.geo.partition), r.disk[old(r.geo.partition)])
      invariant sec <= sectors == RootDirSectors(r.geo) && total == Max(r.geo.rootEntries - PER_SECTOR * sec, 0)
      invariant Search(r.disk, r.geo, target, 0) == Search(r.disk, r.geo, target, PER_SECTOR * sec)
    {
      SectorStarts(r.geo, sec);
      ok := r.ReadDisk(RootSector(r.geo, sec));
      if !ok {
        SearchUnreadable(r.disk, r.geo, target, sec);
        return None;
      }
      var done;
      entry, done, total := FindInSector(r, target, sec, total);
      if done {
        if entry.Some? {
          FoundInSector(r.disk, r.geo, target, sec, entry.value);
        }
        return entry;
      }
      sec := sec + 1;
    }
    SectorStarts(r.geo, sec);
    SearchPastEnd(r.disk, r.geo, target, PER_SECTOR * sec);
    return None;
  }

  lemma ListingStep(d: Disk, g: Geometry, k: nat, names: seq<seq<u8>>)
    requires k < g.rootEntries
    ensures names + Listing(d, g, k)
            == if Stops(d, g, k) then names
               else (names + if IsListed(EntryAt(d, g, k)) then [Name(EntryAt(d, g, k))] else []) + Listing(d, g, k + 1)
  {
  }

  lemma ListingSlot(d: Disk, g: Geometry, sec: nat, i: nat, names: seq<seq<u8>>)
    requires RootSector(g, sec) in d && i < PER_SECTOR && PER_SECTOR * sec + i < g.rootEntries
    ensures var k, e := PER_SECTOR * sec + i, d[RootSector(g, sec)][ENTRY * i..ENTRY * i + ENTRY];
      names + Listing(d, g, k)
      == if e[0] == 0 then names else (names + if IsListed(e) then [Name(e)] else []) + Listing(d, g, k + 1)
  {
    SlotInSector(d, g, sec, i);
    ListingStep(d, g, PER_SECTOR * sec + i, names);
    hide Listing, IsListed, Name, RootSector;
  }

  lemma ListingPastEnd(d: Disk, g: Geometry, k: nat)
    requires k >= g.rootEntries
    ensures Listing(d, g, k) == []
  {
  }

  // The characters that %s prints from a buffer.
  method ReadCStr(name: array<u8>) returns (s: seq<u8>)
    ensures s == CStr(name[..])
  {
    var i := 0;
    while i < name.Length && name[i] != 0
      invariant i <= name.Length && forall j | 0 <= j < i :: name[j] != 0
    {
      i := i + 1;
    }
    CStrLength(name[..], i);
    s := name[..i];
  }

  // What a listing prints for one entry.
  method ListedName(buf: array<u8>, at: nat) returns (names: seq<seq<u8>>)
    requires at + ENTRY <= buf.Length
    ensures names == if IsListed(buf[at..at + ENTRY]) then [Name(buf[at..at + ENTRY])] else []
  {
    names := [];
    var hidden, name := VisibleName(buf, at);
    if !hidden {
      var size := Load32(buf, at + 28);
      assert size == Get32(buf[at..at + ENTRY], 28);
      if size > 0 {
        var s := ReadCStr(name);
        names := [s];
      }
    }
  }

  // The sector's part of a listing.
  method ListSector(r: Reader, sec: nat, total0: nat) returns (names: seq<seq<u8>>, done: bool, total: nat)
    requires r.buf.Length == SECTOR && Usable(r.geo)
    requires RootSector(r.geo, sec) in r.disk && r.buf[..] == r.disk[RootSector(r.geo, sec)]
    requires total0 == Max(r.geo.rootEntries - PER_SECTOR * sec, 0)
    ensures done ==> Listing(r.disk, r.geo, PER_SECTOR * sec) == names
    ensures !done ==>
              && Listing(r.disk, r.geo, PER_SECTOR * sec) == names + Listing(r.disk, r.geo, PER_SECTOR * (sec + 1))
              && total == Max(r.geo.rootEntries - PER_SECTOR * (sec + 1), 0)
  {
    hide Listing, Stops, EntryAt, RootSector, IsListed, Name;
    names, done, total := [], false, total0;
    var n := r.geo.bytesPerSector / ENTRY;
    var i: nat := 0;
    assert names + Listing(r.disk, r.geo, PER_SECTOR * sec) == Listing(r.disk, r.geo, PER_SECTOR * sec);
    while i < n && total > 0
      invariant i <= n == PER_SECTOR && total == Max(r.geo.rootEntries - (PER_SECTOR * sec + i), 0)
      invariant Listing(r.disk, r.geo, PER_SECTOR * sec) == names + Listing(r.disk, r.geo, PER_SECTOR * sec + i)
    {
      ListingSlot(r.disk, r.geo, sec, i, names);
      total := total - 1;
      if r.buf[ENTRY * i] == 0 {
        return names, true, total;
      }
      var name := ListedName(r.buf, ENTRY * i);
      names := names + name;
      i := i + 1;
    }
    if i < n {
      ListingPastEnd(r.disk, r.geo, PER_SECTOR * sec + i);
      ListingPastEnd(r.disk, r.geo, PER_SECTOR * (sec + 1));
    }
  }

  lemma ListingUnreadable(d: Disk, g: Geometry, sec: nat)
    requires RootSector(g, sec) !in d
    ensures Listing(d, g, PER_SECTOR * sec) == []
  {
    assert PER_SECTOR * sec / PER_SECTOR == sec;
  }

  // fat_list_files prints the listing of the flat directory.
  method ListFiles(r: Reader) returns (names: seq<seq<u8>>)
    requires r.buf.Length == SECTOR
    requires r.geo.partition in r.disk ==> Usable(ParseBpb(r.geo.partition, r.disk[r.geo.partition]))
    modifies r, r.buf
    ensures old(r.geo.partition) !in r.disk ==> names == []
    ensures old(r.geo.partition) in r.disk ==>
              names == Listing(r.disk, ParseBpb(old(r.geo.partition), r.disk[old(r.geo.partition)]), 0)
  {
    hide Listing, Stops, EntryAt, IsListed, Name, RootSector, RootDirSectors, ParseBpb;
    names := [];
    var ok := InitFromBpb(r);
    if !ok {
      return;
    }
    var total: nat := r.geo.rootEntries;
    var sectors := SectorCount(r.geo);
    var sec: nat := 0;
    assert names + Listing(r.disk, r.geo, 0) == Listing(r.disk, r.geo, 0);
    while sec < sectors
      invariant r.geo == ParseBpb(old(r.geo.partition), r.disk[old(r.geo.partition)])
      invariant sec <= sectors == RootDirSectors(r.geo) && total == Max(r.geo.rootEntries - PER_SECTOR * sec, 0)
      invariant Listing(r.disk, r.geo, 0) == names + Listing(r.disk, r.geo, PER_SECTOR * sec)
    {
      SectorStarts(r.geo, sec);
      ok := r.ReadDisk(RootSector(r.geo, sec));
      if !ok {
        ListingUnreadable(r.disk, r.geo, sec);
        assert names + [] == names;
        return;
      }
      var more, done;
      more, done, total := ListSector(r, sec, total);
      assert names + (more + Listing(r.disk, r.geo, PER_SECTOR * (sec + 1)))
          == names + more + Listing(r.disk, r.geo, PER_SECTOR * (sec + 1));
      names := names + more;
      if done {
        return;
      }
      sec := sec + 1;
    }
    SectorStarts(r.geo, sec);
    ListingPastEnd(r.disk, r.geo, PER_SECTOR * sec);
    assert names + [] == names;
  }
}

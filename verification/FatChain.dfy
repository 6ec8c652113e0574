/** What the FAT and the clusters of a file mean, byte by byte: links, ends of chains, and the bytes of a file. */
module FatChain {
  import opened Machine
  import opened Bytes
  import opened FatVolume

  // ---------- Links ----------

  // The first FAT is the sectors behind the reserved ones, and has two bytes for each cluster.
  function FatLba(g: Geometry, cluster: u16): u32 {
    (g.partition + g.reserved + cluster * 2 / 512) % U32
  }

  // The entry of a cluster: two bytes of the first FAT, the low one first.
  function FatEntry(d: Disk, g: Geometry, cluster: u16): u16
    requires FatLba(g, cluster) in d
  {
    var s, at := d[FatLba(g, cluster)], cluster * 2 % 512;
    s[at] as int + 256 * s[at + 1] as int
  }

  // Free, bad and end marks end a chain, as does a part of the FAT that cannot be read.
  predicate EndsAt(d: Disk, g: Geometry, cluster: u16) {
    FatLba(g, cluster) !in d
    || FatEntry(d, g, cluster) == 0 || FatEntry(d, g, cluster) == 0xFFF7 || FatEntry(d, g, cluster) >= 0xFFF8
  }

  // Every other entry is the next cluster.
  lemma NextIsEntry(d: Disk, g: Geometry, cluster: u16)
    requires Usable(g) && 2 <= cluster
    ensures NextCluster(d, g, cluster) == if EndsAt(d, g, cluster) then 0xFFFF else FatEntry(d, g, cluster)
  {
    assert cluster * 2 / g.bytesPerSector == cluster * 2 / 512 && cluster * 2 % g.bytesPerSector == cluster * 2 % 512;
  }

  // A list of clusters, each with its successor in its entry, and an end behind the last.
  ghost predicate Linked(d: Disk, g: Geometry, c: seq<u16>) {
    && c != [] && EndsAt(d, g, c[|c| - 1])
    && (forall i | 0 <= i < |c| :: 2 <= c[i] <= 0xFFF6)
    && (forall i | 0 <= i < |c| - 1 :: FatLba(g, c[i]) in d && FatEntry(d, g, c[i]) == c[i + 1])
  }

  lemma LinkIsNoEnd(d: Disk, g: Geometry, cluster: u16, next: u16)
    requires FatLba(g, cluster) in d && FatEntry(d, g, cluster) == next && 2 <= next <= 0xFFF6
    ensures !EndsAt(d, g, cluster)
  {
  }

  lemma LinkGoesOn(d: Disk, g: Geometry, c: seq<u16>)
    requires Linked(d, g, c) && |c| > 1
    ensures !EndsAt(d, g, c[0]) && FatEntry(d, g, c[0]) == c[1] && Linked(d, g, c[1..])
  {
    hide FatEntry, EndsAt;
    var r := c[1..];
    forall i | 0 <= i < |r| - 1 ensures FatLba(g, r[i]) in d && FatEntry(d, g, r[i]) == r[i + 1] {
      assert r[i] == c[i + 1] && r[i + 1] == c[i + 2];
    }
    LinkIsNoEnd(d, g, c[0], c[1]);
  }

  lemma LinkedSome(d: Disk, g: Geometry, c: seq<u16>)
    requires Linked(d, g, c)
    ensures c != [] && 2 <= c[0] <= 0xFFF6
    ensures |c| == 1 ==> EndsAt(d, g, c[0])
  {
  }

  lemma ChainStarts(d: Disk, g: Geometry, cluster: u16, k: nat)
    requires Usable(g) && k > 0 && 2 <= cluster <= 0xFFF6
    ensures Chain(d, g, cluster, k)
            == [cluster] + if EndsAt(d, g, cluster) then [] else Chain(d, g, FatEntry(d, g, cluster), k - 1)
  {
    hide NextCluster, FatEntry, EndsAt;
    NextIsEntry(d, g, cluster);
  }

  lemma NoChain(d: Disk, g: Geometry, cluster: u16)
    requires Usable(g)
    ensures Chain(d, g, cluster, 0) == []
  {
  }

  // The chain from the first of a list of linked clusters is the list.
  lemma {:induction false} LinkedChain(d: Disk, g: Geometry, c: seq<u16>, k: nat)
    requires Usable(g) && Linked(d, g, c)
    ensures Chain(d, g, c[0], k) == if k < |c| then c[..k] else c
    decreases k
  {
    hide Chain, Linked, FatEntry, EndsAt;
    LinkedSome(d, g, c);
    if k == 0 {
      NoChain(d, g, c[0]);
    } else {
      ChainStarts(d, g, c[0], k);
      assert c == [c[0]] + c[1..];
      if |c| > 1 {
        LinkGoesOn(d, g, c);
        LinkedChain(d, g, c[1..], k - 1);
        assert k < |c| ==> c[..k] == [c[0]] + c[1..][..k - 1];
      }
    }
  }

  // ---------- The bytes of a file ----------

  // Sector s of a cluster: behind reserved sectors, FATs and root directory, clusters count from 2.
  function DataLba(g: Geometry, cluster: u16, s: nat): u32 {
    (g.partition + g.reserved + g.numFats * g.fatSize + (g.rootEntries * 32 + 511) / 512
     + (cluster - 2) * g.sectorsPerCluster + s) % U32
  }

  lemma DataLbaIs(g: Geometry, cluster: u16, s: nat)
    requires Usable(g) && 2 <= cluster && s < g.sectorsPerCluster
    ensures ClusterSector(g, cluster, s) == DataLba(g, cluster, s)
  {
    hide ClusterSector;
    ClusterSectorWraps(g, cluster, s);
    assert (g.rootEntries * 32 + 511) / g.bytesPerSector == (g.rootEntries * 32 + 511) / 512;
  }

  lemma {:induction false} SectorsAt(g: Geometry, c: seq<u16>, i: nat, s: nat)
    requires Usable(g) && i < |c| && s < g.sectorsPerCluster
    ensures 0 <= i * g.sectorsPerCluster + s < |Sectors(g, c)|
    ensures Sectors(g, c)[i * g.sectorsPerCluster + s] == ClusterSector(g, c[i], s)
    decreases i
  {
    var spc := g.sectorsPerCluster;
    SectorsLength(g, c);
    MulLe(i + 1, |c|, spc);
    assert (i + 1) * spc == i * spc + spc;
    MulLe(0, i, spc);
    if i > 0 {
      SectorsAt(g, c[1..], i - 1, s);
      assert (i - 1) * spc + spc == i * spc;
    }
  }

  lemma {:induction false} ReadAllAt(d: Disk, lbas: seq<u32>, q: nat, b: nat)
    requires (forall l | l in lbas :: l in d) && q < |lbas| && b < 512
    ensures lbas[q] in d && 512 * q + b < |ReadAll(d, lbas)|
    ensures ReadAll(d, lbas)[512 * q + b] == d[lbas[q]][b]
    decreases q
  {
    ReadAllLength(d, lbas);
    assert lbas[0] in lbas && lbas[q] in lbas && forall l | l in lbas[1..] :: l in lbas;
    if q > 0 {
      ReadAllAt(d, lbas[1..], q - 1, b);
    }
  }

  // The content of a file in linked clusters is taken from all their sectors.
  lemma LinkedContent(d: Disk, g: Geometry, c: seq<u16>, size: nat)
    requires Usable(g) && Linked(d, g, c)
    ensures FileContent(d, g, c[0], size) == Take(ReadAll(d, Sectors(g, c)), size)
  {
    hide Linked, Sectors, ReadAll, Take;
    LinkedSome(d, g, c);
    if size <= |c| * ClusterBytes(g) {
      LinkedChain(d, g, c, |c|);
      ContentOfClusters(d, g, c[0], size, |c|);
    } else {
      MulLe(1, ClusterBytes(g), |c|);
      LinkedChain(d, g, c, size);
    }
  }

  lemma ClusterInList(d: Disk, g: Geometry, c: seq<u16>, i: nat)
    requires Linked(d, g, c) && i < |c|
    ensures 2 <= c[i] <= 0xFFF6
  {
  }

  lemma {:induction false} SectorIsOne(g: Geometry, c: seq<u16>, l: u32) returns (i: nat, s: nat)
    requires Usable(g) && l in Sectors(g, c)
    ensures i < |c| && s < g.sectorsPerCluster && ClusterSector(g, c[i], s) == l
    decreases |c|
  {
    if l in ClusterSectors(g, c[0]) {
      i := 0;
      s :| 0 <= s < g.sectorsPerCluster && ClusterSectors(g, c[0])[s] == l;
    } else {
      i, s := SectorIsOne(g, c[1..], l);
      i := i + 1;
    }
  }

  lemma AllReadable(d: Disk, g: Geometry, c: seq<u16>)
    requires Usable(g) && Linked(d, g, c)
    requires forall i, s | 0 <= i < |c| && 0 <= s < g.sectorsPerCluster :: DataLba(g, c[i], s) in d
    ensures forall l | l in Sectors(g, c) :: l in d
  {
    hide Linked, Sectors, ClusterSector, DataLba;
    forall l | l in Sectors(g, c) ensures l in d {
      var i, s := SectorIsOne(g, c, l);
      ClusterInList(d, g, c, i);
      DataLbaIs(g, c[i], s);
    }
  }

  // So with all its sectors readable a file has min(size, clusters * cluster bytes) bytes: those of the first
  // cluster, sector by sector, then those of the next.
  lemma FileBytes(d: Disk, g: Geometry, c: seq<u16>, size: nat, i: nat, s: nat, b: nat)
    requires Usable(g) && Linked(d, g, c)
    requires forall i, s | 0 <= i < |c| && 0 <= s < g.sectorsPerCluster :: DataLba(g, c[i], s) in d
    requires i < |c| && s < g.sectorsPerCluster && b < 512
    ensures |FileContent(d, g, c[0], size)| == Min(size, 512 * (|c| * g.sectorsPerCluster))
    ensures var at := 512 * (i * g.sectorsPerCluster + s) + b;
      0 <= at < size ==>
        at < |FileContent(d, g, c[0], size)| && FileContent(d, g, c[0], size)[at] == d[DataLba(g, c[i], s)][b]
  {
    hide Linked, FileContent, Sectors, ReadAll, DataLba, ClusterSector;
    LinkedContent(d, g, c, size);
    AllReadable(d, g, c);
    SectorsLength(g, c);
    ReadAllLength(d, Sectors(g, c));
    SectorsAt(g, c, i, s);
    ReadAllAt(d, Sectors(g, c), i * g.sectorsPerCluster + s, b);
    ClusterInList(d, g, c, i);
    DataLbaIs(g, c[i], s);
  }

  // ---------- Records on the disk ----------

  // The boot sector, field by field.
  lemma BootSectorRead(partition: u32, s: Sector, jump: seq<u8>, oem: seq<u8>, bytesPerSector: u16,
                       sectorsPerCluster: u8, reserved: u16, numFats: u8, rootEntries: u16, total: u16, media: u8,
                       fatSize: u16)
    requires |jump| == 3 && |oem| == 8
    requires s[..24] == jump + oem + Le16(bytesPerSector) + [sectorsPerCluster] + Le16(reserved) + [numFats]
                        + Le16(rootEntries) + Le16(total) + [media] + Le16(fatSize)
    ensures ParseBpb(partition, s)
            == Geometry(partition, bytesPerSector, sectorsPerCluster, reserved, numFats, fatSize, rootEntries)
  {
    hide Le16, Get16;
    var r := s[..24];
    assert r[11..13] == Le16(bytesPerSector) && s[11..13] == r[11..13];
    assert r[13] == sectorsPerCluster && s[13] == r[13];
    assert r[14..16] == Le16(reserved) && s[14..16] == r[14..16];
    assert r[16] == numFats && s[16] == r[16];
    assert r[17..19] == Le16(rootEntries) && s[17..19] == r[17..19];
    assert r[22..24] == Le16(fatSize) && s[22..24] == r[22..24];
    ReadLe16(s, 11, bytesPerSector);
    ReadLe16(s, 14, reserved);
    ReadLe16(s, 17, rootEntries);
    ReadLe16(s, 22, fatSize);
  }
}

/** A FAT16 volume on a disk whose sector reads may fail: its layout and its cluster chains. */
module FatVolume {
  import opened Machine
  import opened Bytes

  const SECTOR: nat := 512
  const END_OF_CHAIN: u16 := 0xFFFF

  type Sector = s: seq<u8> | |s| == SECTOR witness seq(SECTOR, _ => 0)

  // The readable sectors; a read of any other sector fails.
  type Disk = map<u32, Sector>

  // What the reader keeps of the boot sector, and where the partition starts.
  datatype Geometry = Geometry(partition: u32, bytesPerSector: u16, sectorsPerCluster: u8, reserved: u16,
                               numFats: u8, fatSize: u16, rootEntries: u16)

  ghost predicate Usable(g: Geometry) {
    g.bytesPerSector == SECTOR && g.sectorsPerCluster >= 1
  }

  // The fields of the boot sector, at the offsets of the FAT specification's BPB.
  function ParseBpb(partition: u32, s: Sector): Geometry {
    Geometry(partition, Get16(s, 11), s[13], Get16(s, 14), s[16], Get16(s, 22), Get16(s, 17))
  }

  // ---------- Layout ----------

  function RootDirSectors(g: Geometry): nat
    requires Usable(g)
  {
    (g.rootEntries * 32 + (g.bytesPerSector - 1)) / g.bytesPerSector
  }

  function FirstRootSector(g: Geometry): nat {
    g.reserved + g.numFats * g.fatSize
  }

  function DataStart(g: Geometry): nat
    requires Usable(g)
  {
    FirstRootSector(g) + RootDirSectors(g)
  }

  // get_first_cluster_lba, relative to the partition, in 32-bit arithmetic.
  function FirstClusterLba(g: Geometry, cluster: u16): u32
    requires Usable(g)
  {
    (DataStart(g) + (cluster - 2) * g.sectorsPerCluster) % U32
  }

  // The disk sector number s of a cluster.
  function ClusterSector(g: Geometry, cluster: u16, s: nat): u32
    requires Usable(g)
  {
    ((g.partition + FirstClusterLba(g, cluster)) % U32 + s) % U32
  }

  function FatSector(g: Geometry, cluster: u16): u32
    requires Usable(g)
  {
    (g.partition + g.reserved + cluster * 2 / g.bytesPerSector) % U32
  }

  function FatOffset(g: Geometry, cluster: u16): nat
    requires Usable(g)
  {
    cluster * 2 % g.bytesPerSector
  }

  function RootSector(g: Geometry, sec: nat): u32 {
    (g.partition + FirstRootSector(g) + sec) % U32
  }

  // The volume ends before sector numbers wrap around.
  ghost predicate NoWrap(g: Geometry) {
    Usable(g) && g.partition + DataStart(g) + 0x1_0000 * g.sectorsPerCluster <= U32
  }

  lemma SumsWithoutWrap(p: nat, a: nat, s: nat)
    requires p + a + s < U32
    ensures ((p + a % U32) % U32 + s) % U32 == p + a + s
  {
  }

  lemma ClusterSectorValue(g: Geometry, cluster: u16, s: nat)
    requires NoWrap(g) && 2 <= cluster && s < g.sectorsPerCluster
    ensures (cluster - 2) * g.sectorsPerCluster >= 0
    ensures ClusterSector(g, cluster, s) == g.partition + DataStart(g) + (cluster - 2) * g.sectorsPerCluster + s
  {
    var spc := g.sectorsPerCluster;
    var at := (cluster - 2) * spc;
    MulLe(cluster - 1, 0x1_0000, spc);
    MulLe(0, cluster - 2, spc);
    assert (cluster - 1) * spc == at + spc;
    SumsWithoutWrap(g.partition, DataStart(g) + at, s);
  }

  lemma SumsWrapped(p: nat, a: nat, s: nat)
    ensures ((p + a % U32) % U32 + s) % U32 == (p + a + s) % U32
  {
  }

  // Sums that differ by less than 2^32 are equal when they wrap around to the same value.
  lemma WrapCancels(p: nat, x: nat, y: nat)
    requires -U32 < x - y < U32
    ensures (p + x) % U32 == (p + y) % U32 <==> x == y
  {
  }

  // How far from the partition's start a sector of a cluster is.
  function ClusterOffset(g: Geometry, cluster: u16, s: nat): (o: nat)
    requires Usable(g) && 2 <= cluster && s < g.sectorsPerCluster
    ensures DataStart(g) <= o < DataStart(g) + 0x100_0000
  {
    MulLe(0, cluster - 2, g.sectorsPerCluster);
    MulLe(cluster - 2, 0xFFFD, g.sectorsPerCluster);
    DataStart(g) + (cluster - 2) * g.sectorsPerCluster + s
  }

  lemma ClusterSectorWraps(g: Geometry, cluster: u16, s: nat)
    requires Usable(g) && 2 <= cluster && s < g.sectorsPerCluster
    ensures ClusterSector(g, cluster, s) == (g.partition + ClusterOffset(g, cluster, s)) % U32
  {
    MulLe(0, cluster - 2, g.sectorsPerCluster);
    hide DataStart;
    SumsWrapped(g.partition, DataStart(g) + (cluster - 2) * g.sectorsPerCluster, s);
  }

  lemma LaterCluster(g: Geometry, c: u16, c': u16, s: nat, s': nat)
    requires Usable(g) && 2 <= c < c' && s < g.sectorsPerCluster && s' < g.sectorsPerCluster
    ensures ClusterOffset(g, c, s) < ClusterOffset(g, c', s')
  {
    hide DataStart;
    MulLe(c - 1, c' - 2, g.sectorsPerCluster);
    assert (c - 1) * g.sectorsPerCluster == (c - 2) * g.sectorsPerCluster + g.sectorsPerCluster;
  }

  lemma SameCluster(g: Geometry, c: u16, s: nat, s': nat)
    requires Usable(g) && 2 <= c && s < g.sectorsPerCluster && s' < g.sectorsPerCluster
    ensures ClusterOffset(g, c, s) == ClusterOffset(g, c, s') <==> s == s'
  {
    hide DataStart;
  }

  // Distinct clusters share no sector, even where sector numbers wrap around.
  lemma ClustersDisjoint(g: Geometry, c: u16, c': u16, s: nat, s': nat)
    requires Usable(g) && 2 <= c && 2 <= c' && s < g.sectorsPerCluster && s' < g.sectorsPerCluster
    ensures ClusterSector(g, c, s) == ClusterSector(g, c', s') <==> c == c' && s == s'
  {
    hide ClusterSector, DataStart, ClusterOffset;
    ClusterSectorWraps(g, c, s);
    ClusterSectorWraps(g, c', s');
    WrapCancels(g.partition, ClusterOffset(g, c, s), ClusterOffset(g, c', s'));
    if c < c' {
      LaterCluster(g, c, c', s, s');
    } else if c' < c {
      LaterCluster(g, c', c, s', s);
    } else {
      SameCluster(g, c, s, s');
    }
  }

  lemma EntryPlace(cluster: u16, fatSize: u16)
    requires cluster * 2 < fatSize * SECTOR
    ensures cluster * 2 / 512 < fatSize && cluster * 2 % 512 + 2 <= 512
  {
  }

  // The entry of a cluster that the FAT covers lies in the first FAT, in one sector of it.
  lemma EntryInFat(g: Geometry, cluster: u16)
    requires NoWrap(g) && g.numFats >= 1 && cluster * 2 < g.fatSize * SECTOR
    ensures g.partition + g.reserved <= FatSector(g, cluster) < g.partition + g.reserved + g.fatSize
    ensures FatOffset(g, cluster) + 2 <= SECTOR
  {
    MulLe(1, g.numFats, g.fatSize);
    EntryPlace(cluster, g.fatSize);
    MulLe(0, 0x1_0000, g.sectorsPerCluster);
    hide RootDirSectors;
  }

  // The root directory's sectors hold all its entries, with less than a sector to spare.
  lemma RootHoldsEntries(g: Geometry)
    requires Usable(g)
    ensures g.rootEntries * 32 <= RootDirSectors(g) * SECTOR < g.rootEntries * 32 + SECTOR
  {
    assert (g.rootEntries * 32 + 511) / g.bytesPerSector == (g.rootEntries * 32 + 511) / 512;
  }

  lemma RootSectorValue(g: Geometry, sec: nat)
    requires NoWrap(g) && sec < RootDirSectors(g)
    ensures RootSector(g, sec) == g.partition + FirstRootSector(g) + sec
  {
    MulLe(0, 0x1_0000, g.sectorsPerCluster);
    hide FirstRootSector;
  }

  // First FAT, root directory and clusters follow each other on the disk without overlap.
  lemma RegionsDisjoint(g: Geometry, covered: u16, cluster: u16, s: nat, sec: nat)
    requires NoWrap(g) && 2 <= cluster && s < g.sectorsPerCluster && sec < RootDirSectors(g)
    requires g.numFats >= 1 && covered * 2 < g.fatSize * SECTOR
    ensures FatSector(g, covered) < RootSector(g, sec) < ClusterSector(g, cluster, s)
    ensures g.partition + DataStart(g) <= ClusterSector(g, cluster, s)
  {
    EntryInFat(g, covered);
    MulLe(1, g.numFats, g.fatSize);
    ClusterSectorValue(g, cluster, s);
    MulLe(0, 0x1_0000, g.sectorsPerCluster);
    RootSectorValue(g, sec);
  }

  // Where the sector numbers do wrap around, the three still share no sector.
  lemma RegionsShareNothing(g: Geometry, covered: u16, cluster: u16, s: nat, sec: nat)
    requires Usable(g) && 2 <= cluster && s < g.sectorsPerCluster && sec < RootDirSectors(g)
    requires g.numFats >= 1 && covered * 2 < g.fatSize * SECTOR
    ensures FatSector(g, covered) != RootSector(g, sec) && RootSector(g, sec) != ClusterSector(g, cluster, s)
    ensures FatSector(g, covered) != ClusterSector(g, cluster, s)
  {
    hide ClusterSector, RootDirSectors;
    var fat, root := g.reserved + covered * 2 / 512, FirstRootSector(g) + sec;
    var data := ClusterOffset(g, cluster, s);
    MulLe(1, g.numFats, g.fatSize);
    MulLe(g.numFats, 255, g.fatSize);
    RootHoldsEntries(g);
    ClusterSectorWraps(g, cluster, s);
    assert covered * 2 / g.bytesPerSector == covered * 2 / 512;
    WrapCancels(g.partition, fat, root);
    WrapCancels(g.partition, root, data);
    WrapCancels(g.partition, fat, data);
  }

  // ---------- Chains ----------

  // fat_get_next_cluster: the end of the chain also stands for a cluster below 2, an unreadable FAT
  // sector, and a free or bad entry.
  function NextCluster(d: Disk, g: Geometry, cluster: u16): u16
    requires Usable(g)
  {
    if cluster < 2 || FatSector(g, cluster) !in d then END_OF_CHAIN
    else
      var next := Get16(d[FatSector(g, cluster)], FatOffset(g, cluster));
      if next >= 0xFFF8 || next == 0 || next == 0xFFF7 then END_OF_CHAIN else next
  }

  // The first k clusters of the chain, or all of it when it is shorter.
  function Chain(d: Disk, g: Geometry, cluster: u16, k: nat): (c: seq<u16>)
    requires Usable(g)
    ensures |c| <= k
    decreases k
  {
    if k == 0 || cluster == END_OF_CHAIN then [] else [cluster] + Chain(d, g, NextCluster(d, g, cluster), k - 1)
  }

  function ClusterSectors(g: Geometry, cluster: u16): (s: seq<u32>)
    requires Usable(g)
    ensures |s| == g.sectorsPerCluster
  {
    seq(g.sectorsPerCluster, s requires 0 <= s < g.sectorsPerCluster => ClusterSector(g, cluster, s))
  }

  function Sectors(g: Geometry, clusters: seq<u16>): seq<u32>
    requires Usable(g)
  {
    if clusters == [] then [] else ClusterSectors(g, clusters[0]) + Sectors(g, clusters[1..])
  }

  // The bytes of the sectors up to the first that cannot be read.
  function ReadAll(d: Disk, lbas: seq<u32>): seq<u8> {
    if lbas == [] || lbas[0] !in d then [] else d[lbas[0]] + ReadAll(d, lbas[1..])
  }

  function Take(s: seq<u8>, n: nat): seq<u8> {
    if n < |s| then s[..n] else s
  }

  // What reading a file of `size` bytes yields: the first `size` bytes of its clusters, as far as they
  // can be read. A chain of as many clusters as the file has bytes is long enough.
  function FileContent(d: Disk, g: Geometry, cluster: u16, size: nat): seq<u8>
    requires Usable(g)
  {
    Take(ReadAll(d, Sectors(g, Chain(d, g, cluster, size))), size)
  }

  function ClusterBytes(g: Geometry): nat
    requires Usable(g)
  {
    SECTOR * g.sectorsPerCluster
  }

  lemma {:induction false} SectorsLength(g: Geometry, clusters: seq<u16>)
    requires Usable(g)
    ensures |Sectors(g, clusters)| == |clusters| * g.sectorsPerCluster
    decreases |clusters|
  {
    if clusters != [] {
      SectorsLength(g, clusters[1..]);
      assert |clusters| * g.sectorsPerCluster == (|clusters| - 1) * g.sectorsPerCluster + g.sectorsPerCluster;
    }
  }

  lemma {:induction false} ReadAllLength(d: Disk, lbas: seq<u32>)
    requires forall l | l in lbas :: l in d
    ensures |ReadAll(d, lbas)| == SECTOR * |lbas|
    decreases |lbas|
  {
    if lbas != [] {
      ReadAllLength(d, lbas[1..]);
    }
  }

  lemma {:induction false} ReadAllAppend(d: Disk, a: seq<u32>, b: seq<u32>)
    ensures ReadAll(d, a) <= ReadAll(d, a + b)
    ensures if forall l | l in a :: l in d then ReadAll(d, a + b) == ReadAll(d, a) + ReadAll(d, b)
            else ReadAll(d, a + b) == ReadAll(d, a)
    decreases |a|
  {
    if a == [] {
      assert a + b == b;
    } else {
      assert (a + b)[1..] == a[1..] + b;
      ReadAllAppend(d, a[1..], b);
    }
  }

  lemma {:induction false} SectorsAppend(g: Geometry, a: seq<u16>, b: seq<u16>)
    requires Usable(g)
    ensures Sectors(g, a + b) == Sectors(g, a) + Sectors(g, b)
    decreases |a|
  {
    if a == [] {
      assert a + b == b;
    } else {
      assert (a + b)[1..] == a[1..] + b;
      SectorsAppend(g, a[1..], b);
    }
  }

  lemma BytesOfClusters(k: nat, spc: nat)
    ensures SECTOR * (k * spc) == k * (SECTOR * spc)
  {
  }

  // With every data sector readable: exactly min(size, bytes of the chain) bytes.
  lemma ContentLength(d: Disk, g: Geometry, cluster: u16, size: nat)
    requires Usable(g) && forall l | l in Sectors(g, Chain(d, g, cluster, size)) :: l in d
    ensures |FileContent(d, g, cluster, size)| == Min(size, |Chain(d, g, cluster, size)| * ClusterBytes(g))
  {
    hide Chain, Sectors, ReadAll;
    var chain := Chain(d, g, cluster, size);
    SectorsLength(g, chain);
    ReadAllLength(d, Sectors(g, chain));
    BytesOfClusters(|chain|, g.sectorsPerCluster);
  }

  lemma {:induction false} ChainPrefix(d: Disk, g: Geometry, cluster: u16, k: nat, n: nat)
    requires Usable(g) && k <= n
    ensures Chain(d, g, cluster, k) <= Chain(d, g, cluster, n)
    ensures |Chain(d, g, cluster, k)| < k ==> Chain(d, g, cluster, k) == Chain(d, g, cluster, n)
    decreases k
  {
    if k > 0 && cluster != END_OF_CHAIN {
      ChainPrefix(d, g, NextCluster(d, g, cluster), k - 1, n - 1);
    }
  }

  // How much of a longer chain is looked at makes no difference once it covers the file.
  lemma ContentStable(d: Disk, g: Geometry, cluster: u16, size: nat, k: nat, n: nat)
    requires Usable(g) && k <= n && size <= k * ClusterBytes(g)
    ensures Take(ReadAll(d, Sectors(g, Chain(d, g, cluster, k))), size)
            == Take(ReadAll(d, Sectors(g, Chain(d, g, cluster, n))), size)
  {
    hide Chain, Sectors, ReadAll;
    var a, b := Chain(d, g, cluster, k), Chain(d, g, cluster, n);
    ChainPrefix(d, g, cluster, k, n);
    assert b == a + b[|a|..];
    SectorsAppend(g, a, b[|a|..]);
    ReadAllAppend(d, Sectors(g, a), Sectors(g, b[|a|..]));
    if |a| == k && forall l | l in Sectors(g, a) :: l in d {
      SectorsLength(g, a);
      ReadAllLength(d, Sectors(g, a));
      BytesOfClusters(k, g.sectorsPerCluster);
    }
  }

  // The file is the prefix of its concatenated clusters, ceil(size / cluster bytes) of them.
  lemma ContentOfClusters(d: Disk, g: Geometry, cluster: u16, size: nat, k: nat)
    requires Usable(g) && size <= k * ClusterBytes(g)
    ensures FileContent(d, g, cluster, size) == Take(ReadAll(d, Sectors(g, Chain(d, g, cluster, k))), size)
  {
    MulLe(1, ClusterBytes(g), size);
    if k <= size {
      ContentStable(d, g, cluster, size, k, size);
    } else {
      ContentStable(d, g, cluster, size, size, k);
    }
  }

  lemma {:induction false} ChainOnMore(d: Disk, d': Disk, g: Geometry, cluster: u16, k: nat)
    requires Usable(g) && forall l | l in d :: l in d' && d'[l] == d[l]
    ensures Chain(d, g, cluster, k) <= Chain(d', g, cluster, k)
    decreases k
  {
    if k > 0 && cluster != END_OF_CHAIN && NextCluster(d, g, cluster) != END_OF_CHAIN {
      ChainOnMore(d, d', g, NextCluster(d, g, cluster), k - 1);
    }
  }

  lemma {:induction false} ReadOnMore(d: Disk, d': Disk, lbas: seq<u32>)
    requires forall l | l in d :: l in d' && d'[l] == d[l]
    ensures ReadAll(d, lbas) <= ReadAll(d', lbas)
    decreases |lbas|
  {
    if lbas != [] {
      ReadOnMore(d, d', lbas[1..]);
    }
  }

  // On a disk that reads more, the chain is at least as long and the file read at least as far, with the
  // same bytes: a failed read leaves a correct prefix.
  lemma FailureLeavesPrefix(d: Disk, d': Disk, g: Geometry, cluster: u16, size: nat)
    requires Usable(g) && forall l | l in d :: l in d' && d'[l] == d[l]
    ensures FileContent(d, g, cluster, size) <= FileContent(d', g, cluster, size)
  {
    ChainOnMore(d, d', g, cluster, size);
    var c, c' := Chain(d, g, cluster, size), Chain(d', g, cluster, size);
    assert c' == c + c'[|c|..];
    SectorsAppend(g, c, c'[|c|..]);
    ReadOnMore(d, d', Sectors(g, c));
    ReadAllAppend(d', Sectors(g, c), Sectors(g, c'[|c|..]));
  }
}

/** Reading a file: the loops of the FAT16 reader over one reused sector buffer. */
module FatReader {
  import opened Machine
  import opened Bytes
  import opened FatVolume

  // The bytes read from the sectors in turn until n are read or a sector fails.
  function Drain(d: Disk, lbas: seq<u32>, n: nat): seq<u8>
    decreases |lbas|
  {
    if n == 0 || lbas == [] || lbas[0] !in d then []
    else Take(d[lbas[0]], n) + Drain(d, lbas[1..], Max(n - SECTOR, 0))
  }

  lemma {:induction false} DrainTakes(d: Disk, lbas: seq<u32>, n: nat)
    ensures Drain(d, lbas, n) == Take(ReadAll(d, lbas), n)
    decreases |lbas|
  {
    if n > 0 && lbas != [] && lbas[0] in d {
      DrainTakes(d, lbas[1..], Max(n - SECTOR, 0));
    }
  }

  // The sectors of the chain from a cluster on begin with those of that cluster.
  lemma ChainSectors(d: Disk, g: Geometry, cluster: u16, k: nat)
    requires Usable(g) && k > 0 && cluster != END_OF_CHAIN
    ensures Sectors(g, Chain(d, g, cluster, k))
            == ClusterSectors(g, cluster) + Sectors(g, Chain(d, g, NextCluster(d, g, cluster), k - 1))
  {
    assert ([cluster] + Chain(d, g, NextCluster(d, g, cluster), k - 1))[1..]
        == Chain(d, g, NextCluster(d, g, cluster), k - 1);
  }

  lemma SectorOfCluster(g: Geometry, cluster: u16, s: nat)
    requires Usable(g) && s < g.sectorsPerCluster
    ensures ClusterSectors(g, cluster)[s] == ((g.partition + FirstClusterLba(g, cluster)) % U32 + s) % U32
  {
  }

  // One more cluster is enough for the bytes that one cluster did not hold.
  lemma OneClusterLess(k: nat, bytes: nat, left: nat, left1: nat)
    requires left <= k * bytes && bytes > 0 && left > 0 && left1 == Max(left - bytes, 0)
    ensures k > 0 && left1 <= (k - 1) * bytes
  {
    assert k * bytes == (k - 1) * bytes + bytes;
    if k > 0 {
      MulLe(0, k - 1, bytes);
    }
  }

  // ---------- The loop over the chain ----------

  // The sectors of the clusters after this one, of the first k of a chain.
  ghost function Later(d: Disk, g: Geometry, cluster: u16, k: nat): seq<u32>
    requires Usable(g)
  {
    if k == 0 then [] else Sectors(g, Chain(d, g, NextCluster(d, g, cluster), k - 1))
  }

  // The bytes written so far and those of the next k clusters make up the content.
  ghost predicate Progress(d: Disk, g: Geometry, start: u16, size: nat, cluster: u16, k: nat, left: nat, done: seq<u8>)
    requires Usable(g)
  {
    && left <= k * ClusterBytes(g)
    && done + Drain(d, Sectors(g, Chain(d, g, cluster, k)), left) == FileContent(d, g, start, size)
  }

  lemma ProgressStarts(d: Disk, g: Geometry, start: u16, size: nat, done: seq<u8>)
    requires Usable(g) && done == []
    ensures Progress(d, g, start, size, start, size, size, done)
  {
    hide Chain, Sectors, ReadAll, Drain;
    DrainTakes(d, Sectors(g, Chain(d, g, start, size)), size);
    MulLe(1, ClusterBytes(g), size);
  }

  lemma ProgressSteps(d: Disk, g: Geometry, start: u16, size: nat, cluster: u16, k: nat, left: nat, done: seq<u8>,
                      left1: nat, done1: seq<u8>, ok: bool)
    requires Usable(g) && left > 0 && cluster != END_OF_CHAIN
    requires Progress(d, g, start, size, cluster, k, left, done)
    requires done + Drain(d, ClusterSectors(g, cluster) + Later(d, g, cluster, k), left)
             == done1 + if ok then Drain(d, Later(d, g, cluster, k), left1) else []
    requires ok ==> left1 == Max(left - ClusterBytes(g), 0)
    ensures k > 0
    ensures ok ==> Progress(d, g, start, size, NextCluster(d, g, cluster), k - 1, left1, done1)
    ensures !ok ==> done1 == FileContent(d, g, start, size)
  {
    hide Chain, Sectors, Drain, ClusterSectors, FileContent, NextCluster;
    OneClusterLess(k, ClusterBytes(g), left, Max(left - ClusterBytes(g), 0));
    ChainSectors(d, g, cluster, k);
  }

  lemma ProgressEnds(d: Disk, g: Geometry, start: u16, size: nat, cluster: u16, k: nat, left: nat, done: seq<u8>)
    requires Usable(g) && Progress(d, g, start, size, cluster, k, left, done) && (left == 0 || cluster == END_OF_CHAIN)
    ensures done == FileContent(d, g, start, size)
  {
    hide FileContent;
  }

  class Reader {
    const disk: Disk
    const buf: array<u8>  // the sector buffer at FAT_LOAD_ADDR
    var geo: Geometry

    constructor (disk: Disk, geo: Geometry)
      ensures this.disk == disk && this.geo == geo && fresh(buf) && buf.Length == SECTOR
    {
      this.disk, this.geo := disk, geo;
      buf := new u8[SECTOR];
    }

    // ide_read_disk of one sector into the buffer; what a failed read leaves there is not said.
    method ReadDisk(lba: u32) returns (ok: bool)
      requires buf.Length == SECTOR
      modifies buf
      ensures ok <==> lba in disk
      ensures ok ==> buf[..] == disk[lba]
    {
      ok := lba in disk;
      if ok {
        var s := disk[lba];
        for i := 0 to SECTOR
          invariant buf[..i] == s[..i]
        {
          buf[i] := s[i];
        }
        assert buf[..] == buf[..SECTOR] && s[..SECTOR] == s;
      }
    }

    method GetNextCluster(cluster: u16) returns (next: u16)
      requires buf.Length == SECTOR && Usable(geo)
      modifies buf
      ensures next == NextCluster(disk, geo, cluster)
    {
      if cluster < 2 {
        return END_OF_CHAIN;
      }
      var fatOffset: nat := cluster * 2;
      var entryOfs := fatOffset % geo.bytesPerSector;
      var ok := ReadDisk((geo.partition + geo.reserved + fatOffset / geo.bytesPerSector) % U32);
      if !ok {
        return END_OF_CHAIN;
      }
      assert entryOfs + 2 <= SECTOR by {
        assert cluster * 2 % geo.bytesPerSector == cluster * 2 % 512;
      }
      next := Load16(buf, entryOfs);
      if next >= 0xFFF8 || next == 0 || next == 0xFFF7 {
        next := END_OF_CHAIN;
      }
    }

    // memcpy of the first n buffer bytes to the output.
    method CopyOut(out: array<u8>, at: nat, n: nat)
      requires out != buf && buf.Length == SECTOR && n <= SECTOR && at + n <= out.Length
      modifies out
      ensures out[..at + n] == old(out[..at]) + buf[..n]
      ensures forall i | at + n <= i < out.Length :: out[i] == old(out[i])
    {
      for i := 0 to n
        invariant forall j | 0 <= j < at || at + i <= j < out.Length :: out[j] == old(out[j])
        invariant forall j | 0 <= j < i :: out[at + j] == buf[j]
      {
        out[at + i] := buf[i];
      }
      forall j | 0 <= j < at + n ensures out[j] == (old(out[..at]) + buf[..n])[j] {
        assert j >= at ==> out[at + (j - at)] == buf[j - at];
      }
    }

    // One sector, the first of those still to be read, and as much of it as is wanted.
    method ReadSector(lba: u32, out: array<u8>, at0: nat, left0: nat, ghost lbas: seq<u32>)
        returns (at: nat, left: nat, ok: bool)
      requires buf.Length == SECTOR && geo.bytesPerSector == SECTOR && out != buf && at0 + left0 <= out.Length
      requires left0 > 0 && lbas != [] && lbas[0] == lba
      modifies buf, out
      ensures at + left == at0 + left0 && left == if ok then Max(left0 - SECTOR, 0) else left0
      ensures forall i | at <= i < out.Length :: out[i] == old(out[i])
      ensures old(out[..at0]) + Drain(disk, lbas, left0)
              == out[..at] + if ok then Drain(disk, lbas[1..], left) else []
    {
      at, left := at0, left0;
      ghost var done := out[..at];
      ok := ReadDisk(lba);
      if ok {
        var chunk := if left > geo.bytesPerSector then geo.bytesPerSector else left;
        CopyOut(out, at, chunk);
        assert buf[..chunk] == Take(disk[lba], left);
        at, left := at + chunk, left - chunk;
        assert done + (Take(disk[lba], left0) + Drain(disk, lbas[1..], left))
            == (done + Take(disk[lba], left0)) + Drain(disk, lbas[1..], left);
      }
    }

    // The sectors of one cluster, as long as bytes are wanted and reads succeed.
    method ReadCluster(cluster: u16, out: array<u8>, at0: nat, left0: nat, ghost later: seq<u32>)
        returns (at: nat, left: nat, ok: bool)
      requires buf.Length == SECTOR && Usable(geo) && out != buf && at0 + left0 <= out.Length
      modifies buf, out
      ensures at + left == at0 + left0 && left <= left0
      ensures forall i | at <= i < out.Length :: out[i] == old(out[i])
      ensures old(out[..at0]) + Drain(disk, ClusterSectors(geo, cluster) + later, left0)
              == out[..at] + if ok then Drain(disk, later, left) else []
      ensures ok ==> left == Max(left0 - ClusterBytes(geo), 0)
    {
      hide ClusterSectors, FirstClusterLba, Take;
      at, left, ok := at0, left0, true;
      var lba := (geo.partition + FirstClusterLba(geo, cluster)) % U32;
      ghost var all, start := ClusterSectors(geo, cluster), out[..at0];
      var s: nat := 0;
      assert all[0..] == all;
      while s < geo.sectorsPerCluster && left > 0
        invariant s <= geo.sectorsPerCluster && at + left == at0 + left0 && left == Max(left0 - SECTOR * s, 0)
        invariant forall i | at <= i < out.Length :: out[i] == old(out[i])
        invariant start + Drain(disk, all + later, left0) == out[..at] + Drain(disk, all[s..] + later, left)
      {
        SectorOfCluster(geo, cluster, s);
        assert (all[s..] + later)[1..] == all[s + 1..] + later && (all[s..] + later)[0] == all[s];
        at, left, ok := ReadSector((lba + s) % U32, out, at, left, all[s..] + later);
        if !ok {
          return;
        }
        s := s + 1;
      }
      if left > 0 {
        assert all[s..] + later == later;
      }
    }

    // fat_read_file_content: follows the chain and writes the content, however the chain runs.
    method ReadFileContent(start: u16, size: u32, out: array<u8>)
      requires buf.Length == SECTOR && Usable(geo) && out != buf && size <= out.Length
      modifies buf, out
      ensures var content := FileContent(disk, geo, start, size);
        && |content| <= size && out[..|content|] == content
        && forall i | |content| <= i < out.Length :: out[i] == old(out[i])
    {
      hide FileContent, Later, Progress, Drain;
      var left: nat, cl, at: nat := size, start, 0;
      ghost var k: nat := size;
      ProgressStarts(disk, geo, start, size, out[..0]);
      while left > 0 && cl != END_OF_CHAIN
        invariant at + left == size
        invariant forall i | at <= i < out.Length :: out[i] == old(out[i])
        invariant Progress(disk, geo, start, size, cl, k, left, out[..at])
        decreases left
      {
        ghost var before, left0 := out[..at], left;
        var ok;
        at, left, ok := ReadCluster(cl, out, at, left, Later(disk, geo, cl, k));
        ProgressSteps(disk, geo, start, size, cl, k, left0, before, left, out[..at], ok);
        if !ok {
          return;
        }
        cl := GetNextCluster(cl);
        k := k - 1;
      }
      ProgressEnds(disk, geo, start, size, cl, k, left, out[..at]);
    }
  }
}

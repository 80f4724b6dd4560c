/**
  The disk under fs/fat16.c: sectors, the FAT read and written by sector
  arithmetic, and clusters read and written whole.  The class keeps two ghost
  views, the FAT as one flat array and the data area as an array of clusters,
  and every method states what it does to those views.
 */
module FatVolume {
  import opened Arith
  import opened Bytes

  const CLUS_MIN := 3
  const CLUS_MAX := 0xFFEF

  predicate Normal(c: int) { CLUS_MIN <= c <= CLUS_MAX }
  predicate Eof(c: int) { 0xFFF8 <= c <= 0xFFFF }

  // ------------------------------------------------------- sector arithmetic

  // cluster * 2 / bytes_per_sector is the sector that holds the cluster's entry.
  lemma EntrySector(c: int, bps: int)
    requires c >= 0 && bps > 0 && bps % 2 == 0
    ensures c * 2 / bps == c / (bps / 2) && c * 2 % bps == c % (bps / 2) * 2
  {
    var e := bps / 2;
    DivMod(c, e);
    assert c / e * e * 2 == c / e * (e * 2);
    DivIs(c * 2, c / e, c % e * 2, bps);
  }

  // ---------------------------------------------------------------- the disk

  datatype Geometry = Geometry(
    bps: int,          // bytes_per_sector
    spc: int,          // sectors_per_cluster
    clusterBytes: int, // cluster_bytes
    fatStart: int,
    sectorsFat: int,
    dataStart: int,
    clusters: int      // clusters 2 .. clusters - 1 exist on the disk
  ) {
    function Entries(): int { sectorsFat * (bps / 2) }

    ghost predicate Ok(disk: nat) {
      && bps > 0 && bps % 2 == 0 && spc > 0 && clusterBytes == spc * bps && clusterBytes > 0
      && 0 <= fatStart && 0 < sectorsFat && fatStart + sectorsFat <= dataStart < 0x1_0000
      && CLUS_MIN <= clusters <= sectorsFat * (bps / 2)
      && dataStart + (clusters - 2) * spc <= disk
    }
  }

  function Get16(s: seq<byte>, i: int): (v: int)
    requires 0 <= i && i + 1 < |s|
    ensures 0 <= v < 0x1_0000
  {
    (s[i] as int) + 0x100 * (s[i + 1] as int)
  }

  function Put16(s: seq<byte>, i: int, v: int): (r: seq<byte>)
    requires 0 <= i && i + 1 < |s| && 0 <= v < 0x1_0000
    ensures |r| == |s| && Get16(r, i) == v
    ensures forall j :: 0 <= j < |s| && j != i && j != i + 1 ==> r[j] == s[j]
  {
    s[i := v % 0x100][i + 1 := v / 0x100]
  }

  // The 16-bit word at offset o of sector s, low byte first.
  ghost predicate WordAt(disk: seq<seq<byte>>, s: int, o: int, v: int) {
    && 0 <= s < |disk| && 0 <= o && o + 1 < |disk[s]| && 0 <= v < 0x1_0000
    && disk[s][o] == v % 256 && disk[s][o + 1] == v / 256
  }

  // Storing it changes these two bytes of the disk and no other.
  ghost predicate WordStored(disk: seq<seq<byte>>, disk': seq<seq<byte>>, s: int, o: int, v: int) {
    && 0 <= s < |disk| && 0 <= o && o + 1 < |disk[s]| && 0 <= v < 0x1_0000
    && var sector: seq<byte> := disk[s][o := v % 256][o + 1 := v / 256];
       disk' == disk[s := sector]
  }

  // n sectors read one after the other into a buffer.
  function ReadSectors(disk: seq<seq<byte>>, bps: int, lba: int, n: int): (buf: seq<byte>)
    requires bps > 0 && 0 <= lba && 0 <= n && lba + n <= |disk|
    requires forall s :: 0 <= s < |disk| ==> |disk[s]| == bps
    ensures |buf| == n * bps
    decreases n
  {
    if n == 0 then [] else disk[lba] + ReadSectors(disk, bps, lba + 1, n - 1)
  }

  lemma {:induction false} ReadSectorsAt(disk: seq<seq<byte>>, bps: int, lba: int, n: int, i: int)
    requires bps > 0 && 0 <= lba && 0 <= n && lba + n <= |disk|
    requires forall s :: 0 <= s < |disk| ==> |disk[s]| == bps
    requires 0 <= i < n * bps
    ensures 0 <= i / bps < n && ReadSectors(disk, bps, lba, n)[i] == disk[lba + i / bps][i % bps]
    decreases n
  {
    DivBound(i, n, bps);
    DivMod(i, bps);
    if i < bps {
      DivIs(i, 0, i, bps);
    } else {
      assert i - bps == (i / bps - 1) * bps + i % bps;
      DivIs(i - bps, i / bps - 1, i % bps, bps);
      ReadSectorsAt(disk, bps, lba + 1, n - 1, i - bps);
    }
  }

  ghost predicate SectorsOk(disk: seq<seq<byte>>, bps: int) {
    forall s :: 0 <= s < |disk| ==> |disk[s]| == bps
  }

  function WriteSectors(disk: seq<seq<byte>>, bps: int, lba: int, n: int, buf: seq<byte>): (d: seq<seq<byte>>)
    requires bps > 0 && 0 <= lba && 0 <= n && lba + n <= |disk| && |buf| == n * bps
    requires SectorsOk(disk, bps)
    ensures |d| == |disk| && SectorsOk(d, bps)
    ensures forall s :: 0 <= s < |disk| && !(lba <= s < lba + n) ==> d[s] == disk[s]
    decreases n
  {
    if n == 0 then disk
    else
      MulMono(1, n, bps);
      WriteSectors(disk[lba := buf[..bps]], bps, lba + 1, n - 1, buf[bps..])
  }

  lemma {:induction false} ReadSectorsSame(disk: seq<seq<byte>>, disk': seq<seq<byte>>, bps: int, lba: int, n: int)
    requires bps > 0 && 0 <= lba && 0 <= n && lba + n <= |disk| && |disk'| == |disk|
    requires SectorsOk(disk, bps) && SectorsOk(disk', bps)
    requires forall s :: lba <= s < lba + n ==> disk'[s] == disk[s]
    ensures ReadSectors(disk', bps, lba, n) == ReadSectors(disk, bps, lba, n)
    decreases n
  {
    if n > 0 { ReadSectorsSame(disk, disk', bps, lba + 1, n - 1); }
  }

  lemma {:induction false} ReadBack(disk: seq<seq<byte>>, bps: int, lba: int, n: int, buf: seq<byte>)
    requires bps > 0 && 0 <= lba && 0 <= n && lba + n <= |disk| && |buf| == n * bps
    requires SectorsOk(disk, bps)
    ensures ReadSectors(WriteSectors(disk, bps, lba, n, buf), bps, lba, n) == buf
    decreases n
  {
    if n > 0 {
      MulMono(1, n, bps);
      ReadBack(disk[lba := buf[..bps]], bps, lba + 1, n - 1, buf[bps..]);
      assert buf == buf[..bps] + buf[bps..];
    }
  }

  // The FAT entry of cluster c, as fat_get_next_cluster finds it on the disk.
  ghost function EntryAt(disk: seq<seq<byte>>, g: Geometry, c: int): (v: int)
    ensures 0 <= v < 0x1_0000
  {
    if g.bps < 2 then 0
    else
      var s, o := g.fatStart + c / (g.bps / 2), c % (g.bps / 2) * 2;
      if 0 <= s < |disk| && o + 1 < |disk[s]| then Get16(disk[s], o) else 0
  }

  function ClusterLba(g: Geometry, c: int): int { g.dataStart + (c - 2) * g.spc }

  // The sectors of cluster c lie on the disk, after the FAT.
  lemma ClusterOnDisk(g: Geometry, disk: nat, c: int)
    requires g.Ok(disk) && 2 <= c < g.clusters
    ensures g.fatStart + g.sectorsFat <= ClusterLba(g, c) && ClusterLba(g, c) + g.spc <= disk
  {
    MulMono(0, c - 2, g.spc);
    MulGap(c - 2, g.clusters - 2, g.spc);
  }

  lemma ClustersApart(g: Geometry, c: int, c': int)
    requires g.spc > 0 && c != c'
    ensures ClusterLba(g, c) + g.spc <= ClusterLba(g, c') || ClusterLba(g, c') + g.spc <= ClusterLba(g, c)
  {
    if c < c' { MulGap(c - 2, c' - 2, g.spc); } else { MulGap(c' - 2, c - 2, g.spc); }
  }

  // The sector and offset of a FAT entry.
  lemma EntryInFat(g: Geometry, disk: nat, c: int)
    requires g.Ok(disk) && 0 <= c < g.Entries()
    ensures 0 <= c / (g.bps / 2) < g.sectorsFat
    ensures 0 <= c % (g.bps / 2) * 2 && c % (g.bps / 2) * 2 + 1 < g.bps
    ensures g.fatStart + g.sectorsFat <= disk
  {
    DivBound(c, g.sectorsFat, g.bps / 2);
    DivMod(c, g.bps / 2);
    MulMono(0, g.clusters - 2, g.spc);
  }

  ghost predicate FatView(disk: seq<seq<byte>>, g: Geometry, fat: seq<int>) {
    forall c {:trigger EntryAt(disk, g, c)} :: 0 <= c < |fat| ==> fat[c] == EntryAt(disk, g, c)
  }

  ghost predicate DataView(disk: seq<seq<byte>>, g: Geometry, data: seq<seq<byte>>)
    requires g.Ok(|disk|) && SectorsOk(disk, g.bps)
  {
    forall c {:trigger ClusterLba(g, c)} :: 2 <= c < |data| ==>
      && 0 <= ClusterLba(g, c) && ClusterLba(g, c) + g.spc <= |disk|
      && data[c] == ReadSectors(disk, g.bps, ClusterLba(g, c), g.spc)
  }

  // Storing one entry changes that entry of the flat array and nothing else.
  lemma WriteEntryViews(disk: seq<seq<byte>>, g: Geometry, fat: seq<int>, data: seq<seq<byte>>, c: int, v: int)
    requires g.Ok(|disk|) && SectorsOk(disk, g.bps) && |fat| == g.Entries() && |data| == g.clusters
    requires FatView(disk, g, fat) && DataView(disk, g, data)
    requires 0 <= c < g.Entries() && 0 <= v < 0x1_0000
    ensures var s, o := g.fatStart + c / (g.bps / 2), c % (g.bps / 2) * 2;
            && 0 <= s < |disk| && o + 1 < g.bps
            && var disk' := disk[s := Put16(disk[s], o, v)];
               && SectorsOk(disk', g.bps)
               && FatView(disk', g, fat[c := v]) && DataView(disk', g, data)
  {
    EntryInFat(g, |disk|, c);
    var e := g.bps / 2;
    var s, o := g.fatStart + c / e, c % e * 2;
    var disk' := disk[s := Put16(disk[s], o, v)];
    forall d | 0 <= d < |fat| ensures fat[c := v][d] == EntryAt(disk', g, d) {
      EntryInFat(g, |disk|, d);
      assert fat[d] == EntryAt(disk, g, d);
      if d != c && d / e == c / e {
        DivMod(c, e);
        DivMod(d, e);
        assert d % e != c % e;
      }
    }
    forall d | 2 <= d < |data|
      ensures ClusterLba(g, d) + g.spc <= |disk| && data[d] == ReadSectors(disk', g.bps, ClusterLba(g, d), g.spc)
    {
      ClusterOnDisk(g, |disk|, d);
      ReadSectorsSame(disk, disk', g.bps, ClusterLba(g, d), g.spc);
    }
  }

  lemma WriteClusterViews(disk: seq<seq<byte>>, g: Geometry, fat: seq<int>, data: seq<seq<byte>>, c: int, buf: seq<byte>)
    requires g.Ok(|disk|) && SectorsOk(disk, g.bps) && |fat| == g.Entries() && |data| == g.clusters
    requires FatView(disk, g, fat) && DataView(disk, g, data)
    requires 2 <= c < g.clusters && |buf| == g.clusterBytes
    ensures ClusterLba(g, c) >= 0 && ClusterLba(g, c) + g.spc <= |disk|
    ensures var disk' := WriteSectors(disk, g.bps, ClusterLba(g, c), g.spc, buf);
            && SectorsOk(disk', g.bps)
            && FatView(disk', g, fat) && DataView(disk', g, data[c := buf])
  {
    ClusterOnDisk(g, |disk|, c);
    var disk' := WriteSectors(disk, g.bps, ClusterLba(g, c), g.spc, buf);
    forall d | 0 <= d < |fat| ensures fat[d] == EntryAt(disk', g, d) {
      EntryInFat(g, |disk|, d);
      assert fat[d] == EntryAt(disk, g, d);
    }
    forall d | 2 <= d < |data|
      ensures ClusterLba(g, d) + g.spc <= |disk| && data[c := buf][d] == ReadSectors(disk', g.bps, ClusterLba(g, d), g.spc)
    {
      ClusterOnDisk(g, |disk|, d);
      if d == c {
        ReadBack(disk, g.bps, ClusterLba(g, c), g.spc, buf);
      } else {
        ClustersApart(g, c, d);
        ReadSectorsSame(disk, disk', g.bps, ClusterLba(g, d), g.spc);
      }
    }
  }

  // Sector and offset, inside a chunk of spc sectors, of its entry number ptr.
  lemma ChunkPos(spc: int, bps: int, ptr: int)
    requires bps > 0 && bps % 2 == 0 && spc > 0 && 0 <= ptr < spc * (bps / 2)
    ensures ptr * 2 + 1 < spc * bps
    ensures ptr * 2 / bps == ptr / (bps / 2) && ptr * 2 % bps == ptr % (bps / 2) * 2
    ensures (ptr * 2 + 1) / bps == ptr / (bps / 2) && (ptr * 2 + 1) % bps == ptr % (bps / 2) * 2 + 1
  {
    var e := bps / 2;
    ChunkSize(spc, bps);
    DivMod(ptr, e);
    assert ptr / e * e * 2 == ptr / e * bps;
    DivIs(ptr * 2, ptr / e, ptr % e * 2, bps);
    DivIs(ptr * 2 + 1, ptr / e, ptr % e * 2 + 1, bps);
  }

  lemma EntryPos(t: int, ptr: int, e: int)
    requires e > 0
    ensures (t * e + ptr) / e == t + ptr / e && (t * e + ptr) % e == ptr % e
  {
    DivMod(ptr, e);
    Distrib(t, ptr / e, e);
    DivIs(t * e + ptr, t + ptr / e, ptr % e, e);
  }

  // Entry number `ptr` of a buffer read from FAT sector t on.
  lemma ChunkEntry(disk: seq<seq<byte>>, g: Geometry, t: int, ptr: int)
    requires g.bps > 0 && g.bps % 2 == 0 && g.spc > 0 && SectorsOk(disk, g.bps)
    requires 0 <= t && 0 <= ptr < g.spc * (g.bps / 2) && 0 <= g.fatStart && g.fatStart + t + g.spc <= |disk|
    ensures ptr * 2 + 1 < g.spc * g.bps
    ensures Get16(ReadSectors(disk, g.bps, g.fatStart + t, g.spc), ptr * 2) == EntryAt(disk, g, t * (g.bps / 2) + ptr)
  {
    var e := g.bps / 2;
    ChunkPos(g.spc, g.bps, ptr);
    ReadSectorsAt(disk, g.bps, g.fatStart + t, g.spc, ptr * 2);
    ReadSectorsAt(disk, g.bps, g.fatStart + t, g.spc, ptr * 2 + 1);
    EntryPos(t, ptr, e);
  }

  // The least free cluster number that is at least i; |fat| if there is none.
  function FirstFree(fat: seq<int>, i: int): (c: int)
    requires 0 <= i
    ensures i <= c || |fat| < i
    ensures c <= |fat| || |fat| < i
    ensures i <= c < |fat| ==> fat[c] == 0
    ensures forall d :: i <= d < c && d < |fat| ==> fat[d] != 0
    decreases |fat| - i
  {
    if i >= |fat| then |fat| else if fat[i] == 0 then i else FirstFree(fat, i + 1)
  }

  // Entry n of the scan stops it: its 16-bit number is above 2 and it is zero.
  ghost predicate Hit(ents: seq<int>, n: int) {
    0 <= n < |ents| && n % 0x1_0000 > 2 && ents[n] == 0
  }

  lemma ChunkSize(spc: int, bps: int)
    requires bps > 0 && bps % 2 == 0 && spc > 0
    ensures spc * bps == spc * (bps / 2) * 2 && spc * (bps / 2) >= 0
  {
    MulMono(0, spc, bps / 2);
  }

  lemma NextChunk(t: int, spc: int)
    requires spc > 0 && t % spc == 0
    ensures (t + spc) % spc == 0
  {
    DivMod(t, spc);
    assert t / spc * spc + spc == (t / spc + 1) * spc;
    DivIs(t + spc, t / spc + 1, 0, spc);
  }

  // Rounding n up to whole chunks of spc.
  lemma RoundUp(t: int, spc: int, n: int)
    requires spc > 0 && t % spc == 0
    ensures var up := (n + spc - 1) / spc * spc;
            n <= up && (t < n ==> t + spc <= up) && (n <= t ==> up <= t)
  {
    var q, a := (n + spc - 1) / spc, t / spc;
    DivMod(n + spc - 1, spc);
    DivMod(t, spc);
    MultiplesApart(a, q, spc);
  }

  // Sectors the search for a free entry reads: the FAT rounded up to whole chunks.
  function ScanSectors(g: Geometry): int
    requires g.spc > 0
  {
    (g.sectorsFat + g.spc - 1) / g.spc * g.spc
  }

  lemma ScanCovers(g: Geometry, disk: nat)
    requires g.Ok(disk)
    ensures g.sectorsFat <= ScanSectors(g) && 0 <= g.Entries() <= ScanSectors(g) * (g.bps / 2)
    ensures g.sectorsFat % g.spc == 0 <==> ScanSectors(g) == g.sectorsFat
    ensures g.sectorsFat % g.spc != 0 ==> g.Entries() + g.bps / 2 <= ScanSectors(g) * (g.bps / 2)
  {
    DivIs(0, 0, 0, g.spc);
    RoundUp(0, g.spc, g.sectorsFat);
    MulMono(g.sectorsFat, ScanSectors(g), g.bps / 2);
    MulMono(0, g.sectorsFat, g.bps / 2);
    if g.sectorsFat % g.spc == 0 {
      RoundUp(g.sectorsFat, g.spc, g.sectorsFat);
    } else {
      DivIs(ScanSectors(g), (g.sectorsFat + g.spc - 1) / g.spc, 0, g.spc);
      MulGap(g.sectorsFat, ScanSectors(g), g.bps / 2);
    }
  }

  // Every entry the search can look at, also past the end of the FAT.
  ghost function Scanned(disk: seq<seq<byte>>, g: Geometry): (ents: seq<int>)
    requires g.Ok(|disk|)
    ensures |ents| == ScanSectors(g) * (g.bps / 2) && FatView(disk, g, ents)
  {
    ScanCovers(g, |disk|);
    EntriesOf(disk, g, ScanSectors(g) * (g.bps / 2))
  }

  // The least entry from i on that stops the search; |ents| if there is none.
  ghost function FirstHit(ents: seq<int>, i: int): (n: int)
    requires 0 <= i <= |ents|
    ensures i <= n <= |ents| && (n < |ents| ==> Hit(ents, n))
    ensures forall m :: i <= m < n ==> !Hit(ents, m)
    decreases |ents| - i
  {
    if i == |ents| || Hit(ents, i) then i else FirstHit(ents, i + 1)
  }

  // The search stops at the first free entry of the FAT if there is one with a
  // 16-bit number; in a full FAT it stops only past the end.
  lemma HitIsFirst(ents: seq<int>, fat: seq<int>)
    requires fat <= ents
    ensures FirstFree(fat, 3) < |fat| && FirstFree(fat, 3) < 0x1_0000 ==> FirstHit(ents, 0) == FirstFree(fat, 3)
    ensures FirstFree(fat, 3) >= |fat| ==> FirstHit(ents, 0) >= |fat|
  {
    var f, n := FirstFree(fat, 3), FirstHit(ents, 0);
    assert n < |fat| ==> fat[n] == ents[n];
    if f < |fat| && f < 0x1_0000 { assert Hit(ents, f); }
  }

  // ------------------------------------------- when a full FAT is reported full

  // On every disk of n sectors whose FAT has no free entry the search finds none.
  ghost predicate ReportsFull(g: Geometry, n: nat)
    requires g.Ok(n)
  {
    forall disk {:trigger Scanned(disk, g)} ::
      |disk| == n && SectorsOk(disk, g.bps) && FirstFree(EntriesOf(disk, g, g.Entries()), 3) >= g.Entries() ==>
        FirstHit(Scanned(disk, g), 0) == |Scanned(disk, g)|
  }

  // The search looks at a word behind the FAT whose 16-bit number it would return.
  ghost predicate LooksPast(g: Geometry)
    requires g.spc > 0
  {
    exists m :: g.Entries() <= m < ScanSectors(g) * (g.bps / 2) && m % 0x1_0000 > 2
  }

  // A FAT without a free entry, and zero words behind it.
  ghost function FullDisk(g: Geometry, n: nat): (disk: seq<seq<byte>>)
    requires g.bps >= 0
    ensures |disk| == n && SectorsOk(disk, g.bps)
  {
    seq(n, s => if g.fatStart <= s < g.fatStart + g.sectorsFat then seq(g.bps, _ => 0xFF) else seq(g.bps, _ => 0))
  }

  lemma FullDiskEntries(g: Geometry, n: nat, m: int)
    requires g.Ok(n) && 0 <= m < ScanSectors(g) * (g.bps / 2)
    ensures EntryAt(FullDisk(g, n), g, m) == 0 <==> m >= g.Entries()
  {
    var e := g.bps / 2;
    DivBound(m, ScanSectors(g), e);
    DivMod(m, e);
    ScanOnDisk(g, n);
    if m < g.Entries() { DivBound(m, g.sectorsFat, e); } else { DivIs(g.Entries(), g.sectorsFat, 0, e); DivMono(g.Entries(), m, e); }
  }

  lemma ScanOnDisk(g: Geometry, disk: nat)
    requires g.Ok(disk)
    ensures g.fatStart + ScanSectors(g) <= disk
  {
    DivMod(g.sectorsFat + g.spc - 1, g.spc);
    MulGap(0, g.clusters - 2, g.spc);
  }

  lemma FullReportedIff(g: Geometry, n: nat)
    requires g.Ok(n)
    ensures ReportsFull(g, n) <==> !LooksPast(g)
  {
    ScanCovers(g, n);
    if LooksPast(g) {
      PastIsFound(g, n);
    } else {
      forall disk | |disk| == n && SectorsOk(disk, g.bps) && FirstFree(EntriesOf(disk, g, g.Entries()), 3) >= g.Entries()
        ensures FirstHit(Scanned(disk, g), 0) == |Scanned(disk, g)|
      {
        EntriesPrefix(disk, g, g.Entries(), |Scanned(disk, g)|);
        HitIsFirst(Scanned(disk, g), EntriesOf(disk, g, g.Entries()));
      }
    }
  }

  lemma EntriesPrefix(disk: seq<seq<byte>>, g: Geometry, k: nat, n: nat)
    requires k <= n
    ensures EntriesOf(disk, g, k) <= EntriesOf(disk, g, n)
  {}

  lemma PastIsFound(g: Geometry, n: nat)
    requires g.Ok(n) && LooksPast(g)
    ensures !ReportsFull(g, n)
  {
    ScanCovers(g, n);
    var disk := FullDisk(g, n);
    var ents, fat := Scanned(disk, g), EntriesOf(disk, g, g.Entries());
    forall c | 0 <= c < |fat| ensures fat[c] != 0 { FullDiskEntries(g, n, c); }
    assert FirstFree(fat, 3) >= |fat|;
    var m :| g.Entries() <= m < |ents| && m % 0x1_0000 > 2;
    FullDiskEntries(g, n, m);
    assert ents[m] == EntryAt(disk, g, m);
    assert Hit(ents, m);
  }

  // With fewer than 0x1_0000 entries, or sectors of at least 8 bytes, that is
  // exactly when the FAT is a whole number of chunks.
  lemma FullReportedIffWhole(g: Geometry, n: nat)
    requires g.Ok(n) && (g.Entries() < 0x1_0000 || g.bps >= 8)
    ensures ReportsFull(g, n) <==> g.sectorsFat % g.spc == 0
  {
    FullReportedIff(g, n);
    ScanCovers(g, n);
    if g.sectorsFat % g.spc != 0 {
      var m := if g.Entries() % 0x1_0000 > 2 then g.Entries() else g.Entries() + 3;
      WordNumber(g.Entries());
      assert m % 0x1_0000 > 2;
    }
  }

  lemma WordNumber(k: int)
    requires k >= 0
    ensures k % 0x1_0000 > 2 || (k + 3) % 0x1_0000 > 2
  {}

  // Where the chunk that starts at FAT sector t ends.
  lemma ChunkEnd(g: Geometry, disk: nat, t: int)
    requires g.Ok(disk) && 0 <= t < g.sectorsFat && t % g.spc == 0
    ensures g.fatStart + t + g.spc <= disk && (t + g.spc) % g.spc == 0
    ensures 0 <= t * (g.bps / 2) <= t * (g.bps / 2) + g.spc * (g.bps / 2) == (t + g.spc) * (g.bps / 2) <= ScanSectors(g) * (g.bps / 2)
    ensures t + g.spc >= g.sectorsFat ==> t + g.spc == ScanSectors(g)
  {
    var e := g.bps / 2;
    MulGap(0, g.clusters - 2, g.spc);
    NextChunk(t, g.spc);
    RoundUp(t, g.spc, g.sectorsFat);
    RoundUp(t + g.spc, g.spc, g.sectorsFat);
    Distrib(t, g.spc, e);
    MulMono(0, t, e);
    MulMono(0, g.spc, e);
    MulMono(t + g.spc, ScanSectors(g), e);
  }

  // Entry number ptr of a buffer of 16-bit entries.
  function Entry16(buf: seq<byte>, ptr: int): int
    requires 0 <= ptr && ptr * 2 + 1 < |buf|
  {
    Get16(buf, ptr * 2)
  }

  // A buffer holds entries n0, n0 + 1, ... of the scan.
  ghost predicate HoldsEntries(buf: seq<byte>, ents: seq<int>, n0: int) {
    && |buf| % 2 == 0 && 0 <= n0 && n0 + |buf| / 2 <= |ents|
    && forall ptr {:trigger Entry16(buf, ptr)} :: 0 <= ptr < |buf| / 2 ==> Entry16(buf, ptr) == ents[n0 + ptr]
  }

  lemma ChunkEntries(disk: seq<seq<byte>>, g: Geometry, ents: seq<int>, t: int, n0: int, buf: seq<byte>)
    requires g.Ok(|disk|) && SectorsOk(disk, g.bps) && FatView(disk, g, ents)
    requires 0 <= t && g.fatStart + t + g.spc <= |disk| && n0 == t * (g.bps / 2)
    requires 0 <= n0 && n0 + g.spc * (g.bps / 2) <= |ents|
    requires buf == ReadSectors(disk, g.bps, g.fatStart + t, g.spc)
    ensures HoldsEntries(buf, ents, n0) && |buf| / 2 == g.spc * (g.bps / 2)
  {
    ChunkSize(g.spc, g.bps);
    forall ptr | 0 <= ptr < |buf| / 2 ensures Entry16(buf, ptr) == ents[n0 + ptr] {
      ChunkEntry(disk, g, t, ptr);
    }
  }

  ghost function EntriesOf(disk: seq<seq<byte>>, g: Geometry, n: nat): (ents: seq<int>)
    ensures |ents| == n && FatView(disk, g, ents)
  {
    seq(n, c => EntryAt(disk, g, c))
  }

  // The 16-bit count follows the number of entries looked at.
  lemma NextCount(n: int)
    ensures (n % 0x1_0000 + 1) % 0x1_0000 == (n + 1) % 0x1_0000
  {
  }

  // fat_get_free_cluster's inner loop over one buffer; n0 entries came before,
  // and the count is a 16-bit word.
  method ScanChunk(buf: seq<byte>, cnt: int, ghost ents: seq<int>, ghost n0: int)
    returns (found: bool, cluster: int, cnt': int, ghost n: int)
    requires cnt == n0 % 0x1_0000 && HoldsEntries(buf, ents, n0)
    ensures n0 <= n <= n0 + |buf| / 2
    ensures forall m :: n0 <= m < n ==> !Hit(ents, m)
    ensures found ==> n < n0 + |buf| / 2 && Hit(ents, n) && cluster == n % 0x1_0000
    ensures !found ==> n == n0 + |buf| / 2 && cnt' == n % 0x1_0000
  {
    var ptr := 0;
    cnt', n := cnt, n0;
    while ptr * 2 < |buf|
      invariant 0 <= ptr <= |buf| / 2 && n == n0 + ptr
      invariant cnt' == n % 0x1_0000
      invariant forall m :: n0 <= m < n ==> !Hit(ents, m)
    {
      if cnt' > 2 && Entry16(buf, ptr) == 0 {
        found, cluster := true, cnt';
        return;
      }
      NextCount(n);
      assert !Hit(ents, n);
      cnt' := (cnt' + 1) % 0x1_0000;
      ptr, n := ptr + 1, n + 1;
    }
    found, cluster := false, 0;
  }

  lemma ClusterOfView(disk: seq<seq<byte>>, g: Geometry, c: int)
    requires g.Ok(|disk|) && SectorsOk(disk, g.bps) && 2 <= c < g.clusters
    ensures 0 <= ClusterLba(g, c) && ClusterLba(g, c) + g.spc <= |disk|
    ensures ClusterOf(disk, g, c) == ReadSectors(disk, g.bps, ClusterLba(g, c), g.spc)
    ensures |ClusterOf(disk, g, c)| == g.clusterBytes
  {
    ClusterOnDisk(g, |disk|, c);
  }

  lemma ViewsExist(disk: seq<seq<byte>>, g: Geometry, fat: seq<int>, data: seq<seq<byte>>)
    requires g.Ok(|disk|) && SectorsOk(disk, g.bps)
    requires |fat| == g.Entries() && forall c :: 0 <= c < |fat| ==> fat[c] == EntryAt(disk, g, c)
    requires |data| == g.clusters && forall c :: 0 <= c < |data| ==> data[c] == ClusterOf(disk, g, c)
    ensures FatView(disk, g, fat) && DataView(disk, g, data)
    ensures forall c :: 2 <= c < |data| ==> |data[c]| == g.clusterBytes
  {
    forall c | 2 <= c < |data|
      ensures 0 <= ClusterLba(g, c) && ClusterLba(g, c) + g.spc <= |disk|
      ensures data[c] == ReadSectors(disk, g.bps, ClusterLba(g, c), g.spc) && |data[c]| == g.clusterBytes
    {
      ClusterOfView(disk, g, c);
    }
  }

  // Byte i of cluster c on the disk.
  ghost predicate ByteOfCluster(disk: seq<seq<byte>>, g: Geometry, c: int, i: int, b: byte) {
    && g.bps > 0
    && var s, o := g.dataStart + (c - 2) * g.spc + i / g.bps, i % g.bps;
       0 <= s < |disk| && o < |disk[s]| && disk[s][o] == b
  }

  ghost predicate HoldsCluster(disk: seq<seq<byte>>, g: Geometry, c: int, buf: seq<byte>) {
    forall i {:trigger ByteOfCluster(disk, g, c, i, buf[i])} :: 0 <= i < |buf| ==> ByteOfCluster(disk, g, c, i, buf[i])
  }

  // Only n sectors from lba on may differ.
  ghost predicate OnlySectors(disk: seq<seq<byte>>, disk': seq<seq<byte>>, lba: int, n: int) {
    && |disk'| == |disk|
    && forall s {:trigger disk'[s]} :: 0 <= s < |disk| && !(lba <= s < lba + n) ==> disk'[s] == disk[s]
  }

  lemma ClusterBytes(disk: seq<seq<byte>>, g: Geometry, c: int)
    requires g.Ok(|disk|) && SectorsOk(disk, g.bps) && 2 <= c < g.clusters
    ensures ClusterLba(g, c) >= 0 && ClusterLba(g, c) + g.spc <= |disk|
    ensures HoldsCluster(disk, g, c, ReadSectors(disk, g.bps, ClusterLba(g, c), g.spc))
  {
    ClusterOnDisk(g, |disk|, c);
    var buf := ReadSectors(disk, g.bps, ClusterLba(g, c), g.spc);
    forall i | 0 <= i < |buf| ensures ByteOfCluster(disk, g, c, i, buf[i]) {
      ReadSectorsAt(disk, g.bps, ClusterLba(g, c), g.spc, i);
      DivMod(i, g.bps);
    }
  }

  // The two arrays are what the disk holds.  The geometry is quantified so that a
  // proof that does not name it is spared its products.
  ghost predicate Mounted(disk: seq<seq<byte>>, g: Geometry, fat: seq<int>, data: seq<seq<byte>>) {
    forall n: nat {:trigger g.Ok(n)} :: n == |disk| ==>
      && g.Ok(n) && SectorsOk(disk, g.bps)
      && |fat| == g.Entries() && |data| == g.clusters
      && FatView(disk, g, fat) && DataView(disk, g, data)
  }

  class Volume {
    const g: Geometry
    var sectors: seq<seq<byte>>
    // The FAT and the clusters as flat arrays (data[0] and data[1] stand for nothing).
    ghost var fat: seq<int>
    ghost var data: seq<seq<byte>>

    ghost predicate Valid()
      reads this
    {
      && Mounted(sectors, g, fat, data)
      && g.clusterBytes > 0 && CLUS_MIN <= g.clusters == |data| <= |fat|
      && (forall c :: 0 <= c < |fat| ==> 0 <= fat[c] < 0x1_0000)
      && (forall c :: 2 <= c < |data| ==> |data[c]| == g.clusterBytes)
    }

    // Any disk with this geometry.
    constructor (g: Geometry, disk: seq<seq<byte>>)
      requires g.Ok(|disk|) && SectorsOk(disk, g.bps)
      ensures Valid() && this.g == g && sectors == disk
    {
      this.g := g;
      sectors := disk;
      fat := seq(g.Entries(), c => EntryAt(disk, g, c));
      data := seq(g.clusters, c => ClusterOf(disk, g, c));
      new;
      ViewsExist(sectors, g, fat, data);
    }

    lemma Layout()
      requires Valid()
      ensures g.Ok(|sectors|) && SectorsOk(sectors, g.bps)
      ensures |fat| == g.Entries() && |data| == g.clusters
      ensures FatView(sectors, g, fat) && DataView(sectors, g, data)
    {
      assert g.Ok(|sectors|);
    }

    // read_fat: the sector that holds cluster's entry, also past the end of the FAT.
    method ReadFat(cluster: int) returns (sector: int, buf: seq<byte>)
      requires Valid() && 0 <= cluster && OnDisk(cluster)
      ensures g.Ok(|sectors|)
      ensures sector == g.fatStart + cluster / (g.bps / 2) && 0 <= sector < |sectors| && buf == sectors[sector]
    {
      Layout();
      EntrySector(cluster, g.bps);
      sector := g.fatStart + cluster * 2 / g.bps;
      buf := sectors[sector];
    }

    // The sector of cluster's entry exists and has a 16-bit number.
    ghost predicate OnDisk(cluster: int)
      reads this
      requires Valid()
    {
      g.Ok(|sectors|) && 0 <= g.fatStart + cluster / (g.bps / 2) < |sectors| && g.fatStart + cluster / (g.bps / 2) < 0x1_0000
    }

    lemma EntriesOnDisk(cluster: int)
      requires Valid() && 0 <= cluster < |fat|
      ensures OnDisk(cluster) && fat[cluster] == EntryAt(sectors, g, cluster)
    {
      Layout();
      EntryInFat(g, |sectors|, cluster);
    }

    // fat_get_next_cluster on any cluster number whose sector exists.
    method NextOnDisk(cluster: int) returns (next: int)
      requires Valid() && 0 <= cluster && OnDisk(cluster)
      ensures next == EntryAt(sectors, g, cluster)
      ensures g.bps > 0 && WordAt(sectors, g.fatStart + cluster * 2 / g.bps, cluster * 2 % g.bps, next)
    {
      Layout();
      EntrySector(cluster, g.bps);
      var _, buf := ReadFat(cluster);
      DivMod(cluster, g.bps / 2);
      next := Get16(buf, cluster % (g.bps / 2) * 2);
    }

    method GetNextCluster(cluster: int) returns (next: int)
      requires Valid() && 0 <= cluster < |fat|
      ensures next == fat[cluster]
      ensures g.bps > 0 && WordAt(sectors, g.fatStart + cluster * 2 / g.bps, cluster * 2 % g.bps, next)
    {
      EntriesOnDisk(cluster);
      next := NextOnDisk(cluster);
    }

    method WriteFat(cluster: int, val: int)
      requires Valid() && 0 <= cluster < |fat| && 0 <= val < 0x1_0000
      modifies this
      ensures Valid() && fat == old(fat)[cluster := val] && data == old(data)
      ensures g.bps > 0 && WordStored(old(sectors), sectors, g.fatStart + cluster * 2 / g.bps, cluster * 2 % g.bps, val)
    {
      Layout();
      EntrySector(cluster, g.bps);
      EntriesOnDisk(cluster);
      var sector, buf := ReadFat(cluster);
      WriteEntryViews(sectors, g, fat, data, cluster, val);
      buf := Put16(buf, cluster % (g.bps / 2) * 2, val);
      sectors := sectors[sector := buf];
      fat := fat[cluster := val];
    }

    method ReadCluster(cluster: int) returns (buf: seq<byte>)
      requires Valid() && 2 <= cluster < g.clusters
      ensures buf == data[cluster] && |buf| == g.clusterBytes
      ensures HoldsCluster(sectors, g, cluster, buf)
    {
      Layout();
      ClusterBytes(sectors, g, cluster);
      ClusterOnDisk(g, |sectors|, cluster);
      buf := ReadSectors(sectors, g.bps, g.dataStart + (cluster - 2) * g.spc, g.spc);
      assert ClusterLba(g, cluster) == g.dataStart + (cluster - 2) * g.spc;
    }

    method WriteCluster(cluster: int, buf: seq<byte>)
      requires Valid() && 2 <= cluster < g.clusters && |buf| == g.clusterBytes
      modifies this
      ensures Valid() && fat == old(fat) && data == old(data)[cluster := buf]
      ensures HoldsCluster(sectors, g, cluster, buf)
      ensures OnlySectors(old(sectors), sectors, g.dataStart + (cluster - 2) * g.spc, g.spc)
    {
      Layout();
      WriteClusterViews(sectors, g, fat, data, cluster, buf);
      ReadBack(sectors, g.bps, ClusterLba(g, cluster), g.spc, buf);
      sectors := WriteSectors(sectors, g.bps, g.dataStart + (cluster - 2) * g.spc, g.spc, buf);
      data := data[cluster := buf];
      ClusterBytes(sectors, g, cluster);
    }

    // Reads and scans the chunk at sector t of the FAT.
    method ScanAt(t: int, cnt: int, ghost ents: seq<int>, ghost n0: int) returns (found: bool, cluster: int, cnt': int, ghost n: int)
      requires g.Ok(|sectors|) && SectorsOk(sectors, g.bps) && ents == Scanned(sectors, g)
      requires 0 <= t < g.sectorsFat && t % g.spc == 0 && n0 == t * (g.bps / 2) && cnt == n0 % 0x1_0000
      requires forall m :: 0 <= m < n0 ==> !Hit(ents, m)
      ensures 0 <= n <= |ents| && forall m :: 0 <= m < n ==> !Hit(ents, m)
      ensures found ==> Hit(ents, n) && cluster == n % 0x1_0000
      ensures !found ==> n == (t + g.spc) * (g.bps / 2) && cnt' == n % 0x1_0000 && (t + g.spc) % g.spc == 0
      ensures !found && t + g.spc >= g.sectorsFat ==> n == |ents|
    {
      ChunkEnd(g, |sectors|, t);
      var buf := ReadSectors(sectors, g.bps, g.fatStart + t, g.spc);
      ChunkEntries(sectors, g, ents, t, n0, buf);
      found, cluster, cnt', n := ScanChunk(buf, cnt, ents, n0);
    }

    // The search chunk by chunk; a last partial chunk is read past its end.
    method ScanFat(ghost ents: seq<int>) returns (found: bool, cluster: int)
      requires g.Ok(|sectors|) && SectorsOk(sectors, g.bps) && ents == Scanned(sectors, g)
      ensures found <==> FirstHit(ents, 0) < |ents|
      ensures found ==> cluster == FirstHit(ents, 0) % 0x1_0000
    {
      var lba, cnt := g.fatStart, 0;
      ghost var n, t := 0, 0;
      while lba - g.fatStart < g.sectorsFat
        invariant 0 <= t && lba == g.fatStart + t && t % g.spc == 0
        invariant n == t * (g.bps / 2) && cnt == n % 0x1_0000
        invariant t >= g.sectorsFat ==> n == |ents|
        invariant forall m :: 0 <= m < n ==> !Hit(ents, m)
      {
        found, cluster, cnt, n := ScanAt(lba - g.fatStart, cnt, ents, n);
        if found {
          assert FirstHit(ents, 0) == n;
          return;
        }
        lba, t := lba + g.spc, t + g.spc;
      }
      found, cluster := false, 0;
    }

    // fat_get_free_cluster.  The answer is the 16-bit number of the first zero word
    // the search meets: the first free entry if it has such a number, but in a full
    // FAT possibly a word behind it.
    method GetFreeCluster() returns (found: bool, cluster: int)
      requires Valid()
      ensures g.Ok(|sectors|)
      ensures var ents := Scanned(sectors, g);
              && (found <==> FirstHit(ents, 0) < |ents|)
              && (found ==> cluster == FirstHit(ents, 0) % 0x1_0000)
      ensures FirstFree(fat, 3) < |fat| && FirstFree(fat, 3) < 0x1_0000 ==> found && cluster == FirstFree(fat, 3)
      ensures FirstFree(fat, 3) >= |fat| && g.sectorsFat % g.spc == 0 ==> !found
    {
      ghost var ents := ScanView();
      found, cluster := ScanFat(ents);
      HitIsFirst(ents, fat);
    }

    // The search when the FAT has a free entry.
    method TakeFreeCluster() returns (cluster: int)
      requires Valid() && FirstFree(fat, 3) < |fat| && FirstFree(fat, 3) < 0x1_0000
      ensures cluster == FirstFree(fat, 3)
    {
      var _, c := GetFreeCluster();
      cluster := c;
    }

    lemma ScanView() returns (ents: seq<int>)
      requires Valid()
      ensures g.Ok(|sectors|) && SectorsOk(sectors, g.bps)
      ensures ents == Scanned(sectors, g) && fat <= ents
      ensures g.sectorsFat % g.spc == 0 ==> |ents| == |fat|
    {
      Layout();
      ScanCovers(g, |sectors|);
      ents := Scanned(sectors, g);
      forall c | 0 <= c < |fat| ensures fat[c] == ents[c] { assert fat[c] == EntryAt(sectors, g, c); }
    }
  }

  // A disk on which cluster 3 is followed by cluster 5, the last of its chain.
  method ByteOrder() returns (next: int, last: int)
    ensures next == 5 && last == 0xFFFF
  {
    var g := Geometry(16, 1, 16, 0, 1, 1, 8);
    var table: seq<byte> := [0xF8, 0xFF, 0xFF, 0xFF, 0, 0, 5, 0, 0, 0, 0xFF, 0xFF, 0, 0, 0, 0];
    var zero: seq<byte> := seq(16, _ => 0);
    var vol := new Volume(g, [table, zero, zero, zero, zero, zero, zero]);
    vol.Layout();
    next := vol.GetNextCluster(3);
    last := vol.GetNextCluster(next);
  }

  // A FAT of one sector, all in use, under chunks of two sectors: the search
  // returns cluster 4 of a FAT whose entries are 0 to 3.
  method FullFatMissed() returns (entries: int, found: bool, cluster: int)
    ensures entries == 4 && found && cluster == 4
  {
    var g := Geometry(8, 2, 16, 0, 1, 1, 4);
    var full: seq<byte> := [0xFF, 0xFF, 0xFF, 0xFF, 0xFF, 0xFF, 0xFF, 0xFF];
    var zero: seq<byte> := [0, 0, 0, 0, 0, 0, 0, 0];
    var disk := [full, zero, zero, zero, zero];
    var vol := new Volume(g, disk);
    entries := g.Entries();
    found, cluster := vol.GetFreeCluster();
    FullFatHit(disk, g);
  }

  lemma FullFatHit(disk: seq<seq<byte>>, g: Geometry)
    requires g == Geometry(8, 2, 16, 0, 1, 1, 4) && |disk| == 5
    requires disk[0] == [0xFF, 0xFF, 0xFF, 0xFF, 0xFF, 0xFF, 0xFF, 0xFF] && disk[1] == [0, 0, 0, 0, 0, 0, 0, 0]
    ensures g.Ok(|disk|) && FirstHit(Scanned(disk, g), 0) == 4 && |Scanned(disk, g)| == 8
  {
    var ents := Scanned(disk, g);
    assert ents[3] == EntryAt(disk, g, 3) == Get16(disk[0], 6);
    assert ents[4] == EntryAt(disk, g, 4) == Get16(disk[1], 0);
    assert Hit(ents, 4);
  }

  ghost function ClusterOf(disk: seq<seq<byte>>, g: Geometry, c: int): seq<byte>
    requires g.Ok(|disk|) && SectorsOk(disk, g.bps)
  {
    if 2 <= c < g.clusters then
      ClusterOnDisk(g, |disk|, c);
      ReadSectors(disk, g.bps, ClusterLba(g, c), g.spc)
    else []
  }
}

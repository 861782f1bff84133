/** Formatting a disk, and what mount makes of the result. */
module Formatting {
  import opened Bytes
  import opened Layout
  import opened Disks
  import opened Volumes
  import opened ChainData
  import opened Cells
  import opened Directories
  import opened DirAdd
  import opened Catalogs
  import opened FileSystems

  const SEC_PER_CLUS: nat := 8
  const RESERVED: nat := 32
  const NUM_FATS: nat := 2

  // 32-bit unsigned arithmetic.

  function Add32(a: nat, b: nat): nat {
    (a + b) % U32
  }

  function Sub32(a: nat, b: nat): nat {
    (a - b) % U32
  }

  function Mul32(a: nat, b: nat): nat {
    Mul(a, b) % U32
  }

  /** The sectors of one table: enough for every cluster there would be without tables, in whole groups of eight. */
  function FatSize(total: nat): nat {
    var clusters := Sub32(total, RESERVED) / SEC_PER_CLUS;
    var size := Sub32(Add32(Mul32(clusters, 4), SECTOR_SIZE), 1) / SECTOR_SIZE;
    Add32(size, 7) / 8 * 8
  }

  /** The number of clusters the formatter counts on. */
  function ClusterCount(total: nat): nat {
    Sub32(Sub32(total, RESERVED), Mul32(NUM_FATS, FatSize(total))) / SEC_PER_CLUS
  }

  lemma NoWrap(x: int)
    requires 0 <= x < U32
    ensures x % U32 == x
  {
  }

  /** The table is no smaller than the clusters need, and not much larger. */
  lemma TableSize(clusters: nat, size: nat, fatSize: nat)
    requires size == (clusters * 4 + 511) / 512 && fatSize == (size + 7) / 8 * 8
    ensures clusters * 4 <= size * 512 <= clusters * 4 + 511
    ensures size <= fatSize <= size + 7
    ensures clusters == 3 ==> fatSize == 8
  {
  }

  /** The formatter's results in unbounded arithmetic. */
  lemma FatSizeIs(total: nat)
    requires 56 <= total < U32
    ensures FatSize(total) == (((total - 32) / 8 * 4 + 511) / 512 + 7) / 8 * 8
  {
    var clusters := (total - 32) / 8;
    var size := (clusters * 4 + 511) / 512;
    MulIsProduct(clusters, 4);
    NoWrap(total - 32);
    NoWrap(clusters * 4);
    NoWrap(clusters * 4 + 512);
    NoWrap(clusters * 4 + 511);
    NoWrap(size + 7);
  }

  /** No step of the formatter's arithmetic wraps, there is a cluster at least, and the tables are large enough. */
  lemma FormatDoesNotWrap(total: nat)
    requires 56 <= total < U32
    ensures FatSize(total) == (((total - 32) / 8 * 4 + 511) / 512 + 7) / 8 * 8
    ensures RESERVED + NUM_FATS * FatSize(total) + SEC_PER_CLUS <= total
    ensures ClusterCount(total) == (total - 32 - 2 * FatSize(total)) / 8
    ensures 1 <= ClusterCount(total) && (ClusterCount(total) + 2) * 4 <= FatSize(total) * SECTOR_SIZE
    ensures RESERVED + NUM_FATS * FatSize(total) + SEC_PER_CLUS * ClusterCount(total) <= total
  {
    hide FatSize;
    FatSizeIs(total);
    var clusters, f := (total - 32) / 8, FatSize(total);
    TableSize(clusters, (clusters * 4 + 511) / 512, f);
    assert 8 * clusters <= total - 32 < 8 * clusters + 8;
    MulIsProduct(2, f);
    NoWrap(total - 32);
    NoWrap(2 * f);
    NoWrap(total - 32 - 2 * f);
  }

  /** The fields of the boot sector nothing depends on. */
  method BuildLabels(buf: array<Byte>, lbaStart: nat)
    requires buf.Length == SECTOR_SIZE && lbaStart < U32
    modifies buf
  {
    MemCpy(buf, 0, [0xEB, 0x58, 0x90]);
    MemCpy(buf, 3, [67, 72, 73, 77, 65, 69, 82, 65]);
    buf[21] := 0xF8;
    MemCpy(buf, 24, Le16(63));
    MemCpy(buf, 26, Le16(255));
    MemCpy(buf, 28, Le32(lbaStart));
    MemCpy(buf, 48, Le16(1));
    MemCpy(buf, 50, Le16(6));
    buf[64], buf[66] := 0x80, 0x29;
    MemCpy(buf, 67, Le32(0xC0FFEE42));
    MemCpy(buf, 71, [67, 72, 73, 77, 65, 69, 82, 65, 32, 32, 32]);
  }

  /** What mount reads in a boot sector of the formatter's. */
  ghost predicate BootOf(boot: Sector, total: nat) {
    && boot[510] == 0x55 && boot[511] == 0xAA && boot[82..87] == [70, 65, 84, 51, 50]
    && Un16(boot[11..13]) == SECTOR_SIZE
    && boot[13] == SEC_PER_CLUS && Un16(boot[14..16]) == RESERVED && boot[16] == NUM_FATS
    && Un32(boot[32..36]) == total && Un32(boot[36..40]) == FatSize(total) && Un32(boot[44..48]) == 2
  }

  method BuildSizes(buf: array<Byte>)
    requires buf.Length == SECTOR_SIZE
    modifies buf
    ensures buf[11..13] == Le16(SECTOR_SIZE) && buf[13] == SEC_PER_CLUS && buf[14..16] == Le16(RESERVED) && buf[16] == NUM_FATS
    ensures buf[17..] == old(buf[17..])
  {
    MemCpy(buf, 11, Le16(SECTOR_SIZE));
    MemCpy(buf, 14, Le16(RESERVED));
    buf[13], buf[16] := SEC_PER_CLUS, NUM_FATS;
  }

  method BuildCounts(buf: array<Byte>, total: nat, fatSize: nat)
    requires buf.Length == SECTOR_SIZE && total < U32 && fatSize < U32
    modifies buf
    ensures buf[32..36] == Le32(total) && buf[36..40] == Le32(fatSize) && buf[44..48] == Le32(2)
    ensures buf[..32] == old(buf[..32]) && buf[48..] == old(buf[48..])
  {
    hide Le32;
    MemCpy(buf, 32, Le32(total));
    MemCpy(buf, 36, Le32(fatSize));
    MemCpy(buf, 44, Le32(2));
  }

  /** The boot sector. */
  method BuildBoot(lbaStart: nat, total: nat) returns (boot: Sector)
    requires lbaStart < U32 && 56 <= total < U32
    ensures BootOf(boot, total)
  {
    hide FatSize, Un16, Un32, Le16, Le32;
    FormatDoesNotWrap(total);
    var buf := new Byte[SECTOR_SIZE](_ => 0);
    BuildLabels(buf, lbaStart);
    MemCpy(buf, 82, [70, 65, 84, 51, 50, 32, 32, 32]);
    buf[510], buf[511] := 0x55, 0xAA;
    ghost var labels := buf[..];
    assert labels[82..87] == [70, 65, 84, 51, 50];
    BuildSizes(buf);
    ghost var sizes := buf[..];
    BuildCounts(buf, total, FatSize(total));
    boot := buf[..];
    assert boot[..32] == sizes[..32];
    assert boot[11..13] == boot[..32][11..13] == sizes[11..13] == Le16(SECTOR_SIZE);
    assert boot[14..16] == boot[..32][14..16] == sizes[14..16] == Le16(RESERVED);
    assert boot[32..36] == Le32(total) && boot[36..40] == Le32(FatSize(total)) && boot[44..48] == Le32(2);
    assert boot[13] == sizes[..32][13] && boot[16] == sizes[..32][16];
    assert boot[48..] == sizes[48..] == sizes[17..][31..] == labels[17..][31..] == labels[48..];
    assert boot[82..87] == boot[48..][34..39] && labels[82..87] == labels[48..][34..39];
    assert boot[510] == boot[48..][462] == labels[48..][462] && boot[511] == boot[48..][463] == labels[48..][463];
    assert boot[82..87] == [70, 65, 84, 51, 50];
    Le16RoundTrip(SECTOR_SIZE);
    Le16RoundTrip(RESERVED);
    Le32RoundTrip(total);
    Le32RoundTrip(FatSize(total));
    Le32RoundTrip(2);
  }

  /** The volume parameters mount computes from a boot sector. */
  function MountGeometry(boot: Sector, lbaStart: nat): Geometry
    requires boot[13] != 0
  {
    var fatSize, numFats, spc := Un32(boot[36..40]), boot[16], boot[13];
    var fatLba := Add32(lbaStart, Un16(boot[14..16]));
    var dataLba := Add32(fatLba, Mul32(numFats, fatSize));
    var totalSec := if Un32(boot[32..36]) != 0 then Un32(boot[32..36]) else Un16(boot[19..21]);
    var dataSec := Sub32(totalSec, Sub32(dataLba, lbaStart));
    Geometry(fatLba, fatSize, numFats, dataLba, spc, Quot(dataSec, spc), Un32(boot[44..48]))
  }

  /** Where mount looks, and what it makes of it when nothing wraps: the tables behind the reserved sectors, the clusters behind
      the tables, as many as there is room for in the volume. */
  lemma MountReads(boot: Sector, lbaStart: nat, reserved: nat, fatSize: nat, total: nat)
    requires boot[13] != 0 && reserved == Spelt(boot[14], boot[15], 0, 0)
    requires fatSize == Spelt(boot[36], boot[37], boot[38], boot[39])
    requires total == if Spelt(boot[32], boot[33], boot[34], boot[35]) != 0 then Spelt(boot[32], boot[33], boot[34], boot[35])
                      else Spelt(boot[19], boot[20], 0, 0)
    requires reserved + boot[16] as int * fatSize <= total && lbaStart + total < U32
    ensures var g := MountGeometry(boot, lbaStart);
      && g.fatLba == lbaStart + reserved && g.numFats == boot[16] && g.fatSize == fatSize
      && g.dataLba == g.fatLba + boot[16] as int * fatSize && g.secPerClus == boot[13]
      && g.rootCluster == Spelt(boot[44], boot[45], boot[46], boot[47])
      && g.dataLba + g.totalClusters * g.secPerClus <= lbaStart + total < g.dataLba + (g.totalClusters + 1) * g.secPerClus
  {
    hide Quot, Mul, Un16, Un32, Spelt, Add32, Sub32, Mul32;
    var tables := boot[16] as int * fatSize;
    Fields(boot);
    MulIsProduct(boot[16], fatSize);
    Unwrapped(lbaStart, reserved, tables, total);
    TablesUnwrapped(boot[16], fatSize);
    RoomFilled(total - (reserved + tables), boot[13]);
  }

  lemma Fields(boot: Sector)
    ensures Un16(boot[14..16]) == Spelt(boot[14], boot[15], 0, 0) && Un16(boot[19..21]) == Spelt(boot[19], boot[20], 0, 0)
    ensures Un32(boot[36..40]) == Spelt(boot[36], boot[37], boot[38], boot[39])
    ensures Un32(boot[32..36]) == Spelt(boot[32], boot[33], boot[34], boot[35])
    ensures Un32(boot[44..48]) == Spelt(boot[44], boot[45], boot[46], boot[47])
  {
  }

  lemma TablesUnwrapped(n: nat, fatSize: nat)
    requires n * fatSize < U32
    ensures Mul32(n, fatSize) == n * fatSize
  {
    MulIsProduct(n, fatSize);
    NoWrap(n * fatSize);
  }

  lemma Unwrapped(lbaStart: nat, reserved: nat, tables: nat, total: nat)
    requires reserved + tables <= total && lbaStart + total < U32
    ensures Add32(lbaStart, reserved) == lbaStart + reserved
    ensures Add32(lbaStart + reserved, tables) == lbaStart + reserved + tables
    ensures Sub32(lbaStart + reserved + tables, lbaStart) == reserved + tables
    ensures Sub32(total, reserved + tables) == total - (reserved + tables)
  {
    NoWrap(lbaStart + reserved);
    NoWrap(lbaStart + reserved + tables);
    NoWrap(reserved + tables);
    NoWrap(total - (reserved + tables));
  }

  lemma RoomFilled(room: nat, spc: nat)
    requires spc > 0
    ensures Quot(room, spc) * spc <= room < (Quot(room, spc) + 1) * spc
  {
    QuotRem(spc, room);
    MulIsProduct(Quot(room, spc), spc);
  }

  /** The geometry mount computes on a freshly formatted disk is the formatter's own. */
  lemma MountSeesFormat(boot: Sector, lbaStart: nat, total: nat)
    requires 56 <= total && lbaStart + total < U32 && BootOf(boot, total)
    ensures MountGeometry(boot, lbaStart) ==
              Geometry(lbaStart + 32, FatSize(total), 2, lbaStart + 32 + 2 * FatSize(total), 8, ClusterCount(total), 2)
  {
    hide FatSize, ClusterCount, Un16, Un32;
    FormatDoesNotWrap(total);
    var f := FatSize(total);
    MulIsProduct(2, f);
    NoWrap(lbaStart + 32);
    NoWrap(2 * f);
    NoWrap(lbaStart + 32 + 2 * f);
    NoWrap(32 + 2 * f);
    NoWrap(total - (32 + 2 * f));
  }

  /** What mount finds on a freshly formatted disk: the data region behind both tables and inside the volume, and a
      table entry for each cluster.  All of it is in order exactly when cluster numbers keep to the 28 bits a table entry
      has. */
  lemma MountAfterFormat(boot: Sector, lbaStart: nat, total: nat)
    requires 56 <= total && lbaStart + total < U32 && BootOf(boot, total)
    ensures var g := MountGeometry(boot, lbaStart);
      && g.dataLba == g.fatLba + Mul(g.numFats, g.fatSize) && g.numFats == 2 && g.secPerClus == SEC_PER_CLUS
      && lbaStart < g.fatLba && g.Sectors() <= lbaStart + total
      && g.totalClusters >= 1 && (g.totalClusters + 2) * 4 <= g.fatSize * SECTOR_SIZE
      && (g.Valid() <==> g.totalClusters + 2 <= BAD)
  {
    MountSeesFormat(boot, lbaStart, total);
    FormatDoesNotWrap(total);
    hide FatSize, ClusterCount, MountGeometry, BootOf, Mul;
    var g := MountGeometry(boot, lbaStart);
    MulIsProduct(2, FatSize(total));
    MulIsProduct(g.totalClusters, 8);
  }

  /** Every sector of every cluster lies behind both tables and inside the volume. */
  lemma ClusterInside(boot: Sector, lbaStart: nat, total: nat, c: nat, s: nat)
    requires 56 <= total && lbaStart + total < U32 && BootOf(boot, total)
    requires MountGeometry(boot, lbaStart).IsCluster(c) && s < SEC_PER_CLUS
    ensures var g := MountGeometry(boot, lbaStart);
      g.fatLba + Mul(2, g.fatSize) <= g.ClusterLba(c) + s < lbaStart + total
  {
    MountAfterFormat(boot, lbaStart, total);
    hide MountGeometry, BootOf, Mul;
    var g := MountGeometry(boot, lbaStart);
    Digits(g.secPerClus, c - 2, s, g.totalClusters, 0);
  }

  /** The number of sectors from which on cluster numbers need more than 28 bits. */
  const TOO_LARGE: nat := 0x8040_1FE0

  /** Cluster numbers keep to 28 bits on exactly the disks smaller than that. */
  lemma ClusterNumbersFit(total: nat)
    requires 56 <= total < U32
    ensures ClusterCount(total) + 2 <= BAD <==> total < TOO_LARGE
  {
    hide FatSize, ClusterCount;
    FormatDoesNotWrap(total);
    var clusters := (total - 32) / 8;
    var groups := ((clusters * 4 + 511) / 512 + 7) / 8;
    GroupsOf(clusters, groups);
    TwoTables(total, clusters, groups);
    LastFit(clusters, groups);
    assert total < TOO_LARGE <==> clusters < (TOO_LARGE - 32) / 8;
  }

  /** A table grows by eight sectors for every 1024 clusters begun. */
  lemma GroupsOf(clusters: nat, groups: nat)
    requires groups == ((clusters * 4 + 511) / 512 + 7) / 8
    ensures groups * 1024 - 1024 < clusters <= groups * 1024
  {
  }

  /** Each of the two tables takes the room of one cluster for every 1024 clusters begun. */
  lemma TwoTables(total: nat, clusters: nat, groups: nat)
    requires 32 <= total && clusters == (total - 32) / 8 && 16 * groups <= total - 32
    ensures (total - 32 - 2 * (groups * 8)) / 8 == clusters - 2 * groups
  {
  }

  lemma LastFit(clusters: nat, groups: nat)
    requires groups * 1024 - 1024 < clusters <= groups * 1024
    ensures clusters - 2 * groups + 2 <= BAD <==> clusters < (TOO_LARGE - 32) / 8
  {
    if groups < 0x40201 {
      assert clusters <= 0x40200 * 1024;
    } else if groups > 0x40201 {
      assert clusters > 0x40201 * 1024;
    }
  }

  /** The first sector of a fresh table: the two reserved entries, and the root's cluster closed. */
  function FirstTableSector(): Sector {
    Le32(EOC) + Le32(EOC_MARK) + Le32(EOC_MARK) + seq(SECTOR_SIZE - 12, _ => 0)
  }

  ghost predicate ZeroRange(img: Image, from: nat, to: nat) {
    to <= |img| && forall i {:trigger img[i]} :: from <= i < to ==> img[i] == ZeroSector()
  }

  /** The image of a freshly formatted volume. */
  ghost predicate Formatted(img: Image, lbaStart: nat, total: nat) {
    && 56 <= total && lbaStart + total <= |img| && RESERVED + 2 * FatSize(total) + SEC_PER_CLUS <= total
    && BootOf(img[lbaStart], total)
    && var fatLba, f := lbaStart + RESERVED, FatSize(total);
    && f > 0
    && img[fatLba] == FirstTableSector() && ZeroRange(img, fatLba + 1, fatLba + f)
    && img[fatLba + f] == FirstTableSector() && ZeroRange(img, fatLba + f + 1, fatLba + 2 * f + SEC_PER_CLUS)
  }

  /** Zeroes a range of sectors. */
  method ZeroSectorsAt(disk: Disk, from: nat, n: nat)
    requires from + n <= disk.sectors.Length
    modifies disk, disk.sectors
    ensures ZeroRange(disk.sectors[..], from, from + n)
    ensures forall i | 0 <= i < disk.sectors.Length && !(from <= i < from + n) :: disk.sectors[i] == old(disk.sectors[i])
  {
    var zero := ZeroSector();
    var s := 0;
    while s < n
      invariant 0 <= s <= n
      invariant ZeroRange(disk.sectors[..], from, from + s)
      invariant forall i | 0 <= i < disk.sectors.Length && !(from <= i < from + s) :: disk.sectors[i] == old(disk.sectors[i])
    {
      disk.Write(from + s, zero);
      s := s + 1;
    }
  }

  /** Writes the boot sector, both tables and an empty root directory. */
  method Format(disk: Disk, lbaStart: nat, total: nat)
    requires 56 <= total && lbaStart + total <= disk.sectors.Length <= NO_SECTOR
    modifies disk, disk.sectors
    ensures Formatted(disk.sectors[..], lbaStart, total)
  {
    hide BootOf, FatSize, FirstTableSector, ClusterCount;
    FormatDoesNotWrap(total);
    var fatSize := FatSize(total);
    var boot := BuildBoot(lbaStart, total);
    disk.Write(lbaStart, boot);
    var fatLba := lbaStart + RESERVED;
    ZeroSectorsAt(disk, fatLba, fatSize);
    ZeroSectorsAt(disk, fatLba + fatSize, fatSize);
    var first := FirstTableSector();
    disk.Write(fatLba, first);
    disk.Write(fatLba + fatSize, first);
    var dataLba := fatLba + NUM_FATS * fatSize;
    ZeroSectorsAt(disk, dataLba, SEC_PER_CLUS);
  }

  /** What an image says, read through a geometry. */
  ghost function ViewOf(g: Geometry, img: Image): View {
    View(seq(g.totalClusters + 2, c requires 0 <= c => FatEntry(g, img, c)),
         seq(g.totalClusters + 2, c requires 0 <= c =>
           if c < 2 then [] else seq(g.secPerClus, s requires 0 <= s => DataSector(g, img, c, s))))
  }

  lemma ViewSees(g: Geometry, img: Image)
    ensures Fits(g, ViewOf(g, img)) && Sees(g, img, ViewOf(g, img))
  {
  }

  /** The catalog of a volume with nothing on it. */
  function EmptyCatalog(g: Geometry): Catalog {
    Catalog(map[2 := [2]], map[2 := Home(2, 0)], map[2 := UnusedCells(g)], map[], map[2 := 0])
  }

  /** Only the root's cluster is in use after formatting. */
  lemma FreshTable(g: Geometry, img: Image, lbaStart: nat, total: nat, c: nat)
    requires Formatted(img, lbaStart, total) && total < U32 && lbaStart + total < U32
    requires g == MountGeometry(img[lbaStart], lbaStart) && g.Valid() && c < g.totalClusters + 2
    ensures FatEntry(g, img, c) == if c == 0 then EOC else if c <= 2 then EOC_MARK else FREE
  {
    hide BootOf, FatSize, MountGeometry, FirstTableSector, ClusterCount, Un32, Mul;
    MountSeesFormat(img[lbaStart], lbaStart, total);
    FatBounds(g, c);
    hide Geometry.Valid;
    var lba := g.FatLba(c);
    if c * 4 / SECTOR_SIZE == 0 {
      FirstEntries(c);
    } else {
      assert img[lba] == ZeroSector();
      ZeroWord(g.FatOffset(c));
    }
  }

  lemma ZeroWord(off: nat)
    requires off + 4 <= SECTOR_SIZE
    ensures Word(ZeroSector(), off) == 0
  {
  }

  lemma FirstEntries(c: nat)
    requires c * 4 < SECTOR_SIZE
    ensures Word(FirstTableSector(), c * 4) == if c == 0 then EOC else if c <= 2 then EOC_MARK else FREE
  {
    var s := FirstTableSector();
    Le32RoundTrip(EOC);
    Le32RoundTrip(EOC_MARK);
    if c == 0 {
      assert s[0..4] == Le32(EOC);
    } else if c == 1 {
      assert s[4..8] == Le32(EOC_MARK);
    } else if c == 2 {
      assert s[8..12] == Le32(EOC_MARK);
    }
  }

  lemma FreshRoot(g: Geometry, img: Image, lbaStart: nat, total: nat)
    requires Formatted(img, lbaStart, total) && total < U32 && lbaStart + total < U32
    requires g == MountGeometry(img[lbaStart], lbaStart) && g.Valid()
    ensures ViewOf(g, img).data[2] == ZeroSectors(g.secPerClus)
  {
    hide BootOf, FatSize, MountGeometry, FirstTableSector;
    MountSeesFormat(img[lbaStart], lbaStart, total);
    assert Mul(0, g.secPerClus) == 0;
    forall s: nat | s < g.secPerClus
      ensures DataSector(g, img, 2, s) == ZeroSector()
    {
      assert img[g.dataLba + s] == ZeroSector();
    }
  }

  /** A freshly formatted volume is consistent, and empty. */
  lemma FreshConsistent(g: Geometry, img: Image, lbaStart: nat, total: nat)
    requires Formatted(img, lbaStart, total) && total < U32 && lbaStart + total < U32
    requires g == MountGeometry(img[lbaStart], lbaStart) && g.Valid() && g.rootCluster == 2
    ensures Consistent(g, ViewOf(g, img), EmptyCatalog(g))
  {
    hide Formatted, MountGeometry, Sees, ViewOf, FatEntry, Matches;
    var v, cat := ViewOf(g, img), EmptyCatalog(g);
    ViewSees(g, img);
    FreshFat(g, img, lbaStart, total);
    FreshRoot(g, img, lbaStart, total);
    ChainAppend(v.data, [], 2);
    assert [] + [2] == [2];
    ZeroEntries(g.secPerClus);
    assert ChainSectors(v.data, []) == [];
    assert Dir(v.data, [2]) == Entries(ZeroSectors(g.secPerClus));
    assert AllMatch(Dir(v.data, [2]), UnusedCells(g));
    assert WellRun(UnusedCells(g)) && NamesDistinct(UnusedCells(g));
  }

  lemma FreshFat(g: Geometry, img: Image, lbaStart: nat, total: nat)
    requires Formatted(img, lbaStart, total) && total < U32 && lbaStart + total < U32
    requires g == MountGeometry(img[lbaStart], lbaStart) && g.Valid() && g.rootCluster == 2
    ensures TableOk(g, ViewOf(g, img).fat, EmptyCatalog(g))
  {
    hide Formatted, MountGeometry, Sees, FatEntry;
    var fat := ViewOf(g, img).fat;
    forall c: nat | c < g.totalClusters + 2
      ensures fat[c] == if c == 0 then EOC else if c <= 2 then EOC_MARK else FREE
    {
      FreshTable(g, img, lbaStart, total, c);
    }
  }

  /** Formatting a disk and mounting it gives a file system with an empty root directory. */
  method FormatAndMount(disk: Disk, lbaStart: nat, total: nat) returns (fs: FileSystem)
    requires 56 <= total < TOO_LARGE && lbaStart + total <= disk.sectors.Length <= NO_SECTOR
    modifies disk, disk.sectors
    ensures fs.Good() && fs.cat == EmptyCatalog(fs.vol.g) && fs.vol.disk == disk
    ensures forall d | d in fs.cat.dirs :: Listing(fs.cat.dirs[d]) == map[]
  {
    hide Formatted, MountGeometry, Sees, Mirrored, ViewOf, Consistent, BootOf;
    Format(disk, lbaStart, total);
    ghost var img := disk.sectors[..];
    FormattedBoot(img, lbaStart, total);
    ClusterNumbersFit(total);
    MountSeesFormat(img[lbaStart], lbaStart, total);
    MountAfterFormat(img[lbaStart], lbaStart, total);
    var boot := disk.Read(lbaStart);
    var g := MountGeometry(boot, lbaStart);
    ViewSees(g, img);
    FreshConsistent(g, img, lbaStart, total);
    var vol := new Volume.Mount(g, disk, ViewOf(g, img));
    fs := new FileSystem(vol, EmptyCatalog(g));
  }

  lemma FormattedBoot(img: Image, lbaStart: nat, total: nat)
    requires Formatted(img, lbaStart, total)
    ensures lbaStart < |img| && BootOf(img[lbaStart], total) && img[lbaStart][13] != 0
  {
  }
}

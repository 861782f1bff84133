/** Where a FAT32 volume keeps its allocation table and its clusters, and what an image of the disk means:
    a `View`, the table as a sequence of 28-bit values and the data region as sectors grouped by cluster. */
module Layout {
  import opened Bytes

  type Image = seq<Sector>

  const FREE: nat := 0
  const BAD: nat := 0x0FFFFFF7
  const EOC: nat := 0x0FFFFFF8
  const EOC_MARK: nat := 0x0FFFFFFF
  const FAT_VALUES: nat := 0x1000_0000

  /** The volume parameters computed once by mount. */
  datatype Geometry = Geometry(
    fatLba: nat, fatSize: nat, numFats: nat, dataLba: nat, secPerClus: nat, totalClusters: nat, rootCluster: nat)
  {
    ghost predicate Valid() {
      && 1 <= numFats
      && 1 <= secPerClus
      && dataLba == fatLba + Mul(numFats, fatSize)
      && (totalClusters + 2) * 4 <= fatSize * SECTOR_SIZE
      && totalClusters + 2 <= BAD
      && Sectors() <= U32 - 1
      && IsCluster(rootCluster)
    }

    /** One past the last sector of the data region. */
    function Sectors(): nat {
      dataLba + Mul(totalClusters, secPerClus)
    }

    predicate IsCluster(c: int) {
      2 <= c < totalClusters + 2
    }

    function ClusterLba(c: nat): nat
      requires c >= 2
    {
      dataLba + Mul(c - 2, secPerClus)
    }

    function FatLba(c: nat): nat {
      fatLba + c * 4 / SECTOR_SIZE
    }

    function FatOffset(c: nat): (off: nat)
      ensures off + 4 <= SECTOR_SIZE
    {
      c * 4 % SECTOR_SIZE
    }
  }

  datatype View = View(fat: seq<nat>, data: seq<seq<Sector>>) {
    function SetFat(c: nat, x: nat): View {
      if c < |fat| then this.(fat := fat[c := x]) else this
    }

    function PutSector(c: nat, s: nat, sector: Sector): View {
      if c < |data| && s < |data[c]| then
        var group: seq<Sector> := data[c][s := sector];
        this.(data := data[c := group])
      else this
    }

    /** Some bytes of a sector changed. */
    function Patch(c: nat, s: nat, off: nat, bytes: seq<Byte>): View {
      if c < |data| && s < |data[c]| && off + |bytes| <= SECTOR_SIZE then
        PutSector(c, s, Splice(data[c][s], off, bytes))
      else this
    }
  }

  /** A view has one table value and one group of sectors per cluster number. */
  ghost predicate Fits(g: Geometry, v: View) {
    && |v.fat| == |v.data| == g.totalClusters + 2
    && (forall c {:trigger v.fat[c]} :: 0 <= c < |v.fat| ==> v.fat[c] < FAT_VALUES)
    && (forall c {:trigger v.data[c]} :: 2 <= c < |v.data| ==> |v.data[c]| == g.secPerClus)
  }

  /** Four bytes to a table entry, from the front of the first table on, and the clusters one behind the other from number 2. */
  lemma Addresses(g: Geometry, c: nat)
    ensures g.FatLba(c) * 512 + g.FatOffset(c) == g.fatLba * 512 + 4 * c
    ensures c >= 2 ==> g.ClusterLba(c) == g.dataLba + (c - 2) * g.secPerClus
    ensures g.Sectors() == g.dataLba + g.totalClusters * g.secPerClus
  {
    if c >= 2 {
      MulIsProduct(c - 2, g.secPerClus);
    }
    MulIsProduct(g.totalClusters, g.secPerClus);
  }

  /** The bounds that make every table and data access of a valid geometry land on the disk. */
  lemma FatBounds(g: Geometry, c: nat)
    requires g.Valid() && c < g.totalClusters + 2
    ensures c * 4 / SECTOR_SIZE < g.fatSize
    ensures g.FatLba(c) < g.fatLba + g.fatSize <= g.dataLba <= g.Sectors()
  {
    Digits(g.fatSize, 0, 0, g.numFats, 0);
  }

  lemma CopyBounds(g: Geometry, f: nat, s: nat)
    requires g.Valid() && f < g.numFats && s < g.fatSize
    ensures g.fatLba + Mul(f, g.fatSize) + s < g.dataLba <= g.Sectors()
    ensures f > 0 ==> g.fatLba + g.fatSize <= g.fatLba + Mul(f, g.fatSize)
  {
    Digits(g.fatSize, f, s, g.numFats, 0);
    Digits(g.fatSize, 0, s, f, 0);
  }

  lemma DataBounds(g: Geometry, c: nat, s: nat)
    requires g.Valid() && g.IsCluster(c) && s < g.secPerClus
    ensures g.dataLba <= g.ClusterLba(c) + s < g.Sectors()
  {
    Digits(g.secPerClus, c - 2, s, g.totalClusters, 0);
  }

  /** The sector at an address; addresses past the end of the image, which no operation forms, read as zeros. */
  function SectorAt(img: Image, lba: nat): Sector {
    if lba < |img| then img[lba] else ZeroSector()
  }

  function FatEntry(g: Geometry, img: Image, c: nat): (x: nat)
    ensures x < FAT_VALUES
  {
    Word(SectorAt(img, g.FatLba(c)), g.FatOffset(c)) % FAT_VALUES
  }

  function DataSector(g: Geometry, img: Image, c: nat, s: nat): Sector
    requires c >= 2
  {
    SectorAt(img, g.ClusterLba(c) + s)
  }

  function FatSector(g: Geometry, img: Image, f: nat, s: nat): Sector {
    SectorAt(img, g.fatLba + Mul(f, g.fatSize) + s)
  }

  ghost predicate SeesFat(g: Geometry, img: Image, fat: seq<nat>) {
    && |fat| == g.totalClusters + 2
    && (forall c {:trigger fat[c]} :: 0 <= c < |fat| ==> fat[c] < FAT_VALUES)
    && (forall c {:trigger FatEntry(g, img, c)} :: 0 <= c < |fat| ==> fat[c] == FatEntry(g, img, c))
  }

  ghost predicate SeesData(g: Geometry, img: Image, data: seq<seq<Sector>>) {
    && |data| == g.totalClusters + 2
    && (forall c {:trigger data[c]} :: 2 <= c < |data| ==> |data[c]| == g.secPerClus)
    && (forall c, s {:trigger DataSector(g, img, c, s)} :: 2 <= c < |data| && 0 <= s < g.secPerClus ==>
          data[c][s] == DataSector(g, img, c, s))
  }

  /** `v` is what the image holds, reading the first copy of the table. */
  ghost predicate Sees(g: Geometry, img: Image, v: View) {
    SeesFat(g, img, v.fat) && SeesData(g, img, v.data)
  }

  /** All copies of the table are byte-identical. */
  ghost predicate Mirrored(g: Geometry, img: Image) {
    forall f, s {:trigger FatSector(g, img, f, s)} :: 0 <= f < g.numFats && 0 <= s < g.fatSize ==>
      FatSector(g, img, f, s) == SectorAt(img, g.fatLba + s)
  }

  /** With a single table there is nothing to keep in step. */
  lemma OneTableMirrored(g: Geometry, img: Image)
    requires g.numFats <= 1
    ensures Mirrored(g, img)
  {
    assert Mul(0, g.fatSize) == 0;
  }

  /** The first `n` sectors of the second table agree with the first table. */
  ghost predicate MirroredUpTo(g: Geometry, img: Image, n: nat) {
    forall t {:trigger FatSector(g, img, 1, t)} :: 0 <= t < n ==> FatSector(g, img, 1, t) == SectorAt(img, g.fatLba + t)
  }

  lemma MirrorStart(g: Geometry, img: Image)
    ensures MirroredUpTo(g, img, 0)
  {
  }

  /** One round of the copy: nothing to do, or a write that no view notices. */
  lemma MirrorStep(g: Geometry, img: Image, v: View, s: nat)
    requires g.Valid() && g.numFats == 2 && |img| >= g.Sectors() && s < g.fatSize
    requires MirroredUpTo(g, img, s) && Sees(g, img, v)
    ensures g.fatLba + s < g.fatLba + g.fatSize + s < |img|
    ensures img[g.fatLba + s] == img[g.fatLba + g.fatSize + s] ==> MirroredUpTo(g, img, s + 1)
    ensures MirroredUpTo(g, img[g.fatLba + g.fatSize + s := img[g.fatLba + s]], s + 1)
    ensures Sees(g, img[g.fatLba + g.fatSize + s := img[g.fatLba + s]], v)
  {
    assert Mul(0, g.fatSize) == 0 && Mul(1, g.fatSize) == g.fatSize;
    CopyBounds(g, 1, s);
    var img' := img[g.fatLba + g.fatSize + s := img[g.fatLba + s]];
    forall t: nat | t <= s
      ensures t < s || img' == img ==> FatSector(g, img', 1, t) == SectorAt(img', g.fatLba + t)
      ensures t == s ==> FatSector(g, img', 1, t) == SectorAt(img', g.fatLba + t)
    {
      var _ := FatSector(g, img, 1, t);
    }
    FatUntouched(g, img, v.fat, g.fatLba + g.fatSize + s, img[g.fatLba + s]);
    DataUntouched(g, img, v.data, g.fatLba + g.fatSize + s, img[g.fatLba + s]);
  }

  lemma TwoTablesMirrored(g: Geometry, img: Image)
    requires g.numFats == 2 && MirroredUpTo(g, img, g.fatSize)
    ensures Mirrored(g, img)
  {
    assert Mul(0, g.fatSize) == 0;
  }

  /** An image has only one view. */
  lemma SeesUnique(g: Geometry, img: Image, v: View, w: View)
    requires Sees(g, img, v) && Sees(g, img, w)
    ensures v.fat == w.fat
    ensures forall c | g.IsCluster(c) :: v.data[c] == w.data[c]
  {
    forall c: nat | c < g.totalClusters + 2
      ensures v.fat[c] == w.fat[c]
    {
      assert v.fat[c] == FatEntry(g, img, c) == w.fat[c];
    }
    forall c: nat | g.IsCluster(c)
      ensures v.data[c] == w.data[c]
    {
      forall s: nat | s < g.secPerClus
        ensures v.data[c][s] == w.data[c][s]
      {
        assert v.data[c][s] == DataSector(g, img, c, s) == w.data[c][s];
      }
    }
  }

  /** Two table entries of one sector occupy disjoint windows, and none straddles the sector's end. */
  lemma EntriesApart(g: Geometry, c: nat, e: nat)
    requires g.FatLba(c) == g.FatLba(e) && c != e
    ensures g.FatOffset(c) + 4 <= g.FatOffset(e) || g.FatOffset(e) + 4 <= g.FatOffset(c)
  {
  }

  /** Storing a table value in the first copy changes that value and no other. */
  lemma FatWriteSeen(g: Geometry, img: Image, fat: seq<nat>, c: nat, x: nat, img': Image)
    requires g.Valid() && |img| >= g.Sectors() && SeesFat(g, img, fat)
    requires c < g.totalClusters + 2 && x < FAT_VALUES && g.FatLba(c) < |img|
    requires img' == img[g.FatLba(c) := StoreWord(img[g.FatLba(c)], g.FatOffset(c), x)]
    ensures SeesFat(g, img', fat[c := x])
  {
    forall e: nat | e < g.totalClusters + 2
      ensures fat[c := x][e] == FatEntry(g, img', e)
    {
      FatBounds(g, e);
      FatEntryStored(g, img, c, x, img', e);
      assert fat[e] == FatEntry(g, img, e);
    }
  }

  lemma FatEntryStored(g: Geometry, img: Image, c: nat, x: nat, img': Image, e: nat)
    requires x < FAT_VALUES && g.FatLba(c) < |img| && g.FatLba(e) < |img|
    requires img' == img[g.FatLba(c) := StoreWord(img[g.FatLba(c)], g.FatOffset(c), x)]
    ensures FatEntry(g, img', e) == if e == c then x else FatEntry(g, img, e)
  {
    if g.FatLba(e) == g.FatLba(c) {
      WordStored(img[g.FatLba(c)], g.FatOffset(c), x, g.FatOffset(e));
      if e != c {
        EntriesApart(g, c, e);
      }
    }
  }

  /** Storing outside the first copy of the table leaves the table as it is seen. */
  lemma FatUntouched(g: Geometry, img: Image, fat: seq<nat>, lba: nat, sector: Sector)
    requires g.Valid() && |img| >= g.Sectors() && SeesFat(g, img, fat)
    requires g.fatLba + g.fatSize <= lba < |img|
    ensures SeesFat(g, img[lba := sector], fat)
  {
    var img' := img[lba := sector];
    forall e: nat | e < g.totalClusters + 2
      ensures fat[e] == FatEntry(g, img', e)
    {
      FatBounds(g, e);
      assert fat[e] == FatEntry(g, img, e);
    }
  }

  /** Storing in the tables leaves the clusters as they are seen. */
  lemma DataUntouched(g: Geometry, img: Image, data: seq<seq<Sector>>, lba: nat, sector: Sector)
    requires g.Valid() && |img| >= g.Sectors() && SeesData(g, img, data)
    requires lba < g.dataLba && lba < |img|
    ensures SeesData(g, img[lba := sector], data)
  {
    var img' := img[lba := sector];
    forall e, s | 2 <= e < |data| && 0 <= s < g.secPerClus
      ensures data[e][s] == DataSector(g, img', e, s)
    {
      DataBounds(g, e, s);
      assert data[e][s] == DataSector(g, img, e, s);
    }
  }

  /** Storing a sector of a cluster changes that sector and no other. */
  lemma DataWriteSeen(g: Geometry, img: Image, v: View, c: nat, t: nat, sector: Sector)
    requires g.Valid() && |img| >= g.Sectors() && SeesData(g, img, v.data)
    requires g.IsCluster(c) && t < g.secPerClus && g.ClusterLba(c) + t < |img|
    ensures SeesData(g, img[g.ClusterLba(c) + t := sector], v.PutSector(c, t, sector).data)
  {
    var data := v.PutSector(c, t, sector).data;
    var img' := img[g.ClusterLba(c) + t := sector];
    forall e | 2 <= e < |data|
      ensures |data[e]| == g.secPerClus
    {
      assert |v.data[e]| == g.secPerClus;
    }
    forall e, s | 2 <= e < |data| && 0 <= s < g.secPerClus
      ensures data[e][s] == DataSector(g, img', e, s)
    {
      DataBounds(g, e, s);
      Digits(g.secPerClus, e - 2, s, c - 2, t);
      assert v.data[e][s] == DataSector(g, img, e, s);
    }
  }

  /** Storing in the data region leaves the copies of the table as they are. */
  lemma DataWriteMirrored(g: Geometry, img: Image, lba: nat, sector: Sector)
    requires g.Valid() && |img| >= g.Sectors() && Mirrored(g, img)
    requires g.dataLba <= lba < |img|
    ensures Mirrored(g, img[lba := sector])
  {
    var img' := img[lba := sector];
    forall f: nat, s: nat | f < g.numFats && s < g.fatSize
      ensures FatSector(g, img', f, s) == SectorAt(img', g.fatLba + s)
    {
      CopyBounds(g, f, s);
      CopyBounds(g, 0, s);
      assert FatSector(g, img, f, s) == SectorAt(img, g.fatLba + s);
    }
  }

  /** The image after storing a table value in copy `f`. */
  ghost function StoreCopy(g: Geometry, img: Image, c: nat, x: nat, f: nat): (r: Image)
    requires g.Valid() && |img| >= g.Sectors() && c < g.totalClusters + 2 && x < FAT_VALUES && f < g.numFats
    ensures |r| == |img|
  {
    CopyBounds(g, f, c * 4 / SECTOR_SIZE);
    var lba := g.fatLba + Mul(f, g.fatSize) + c * 4 / SECTOR_SIZE;
    img[lba := StoreWord(img[lba], g.FatOffset(c), x)]
  }

  /** The image after storing a table value in the first `f` copies. */
  ghost function FatSetImage(g: Geometry, img: Image, c: nat, x: nat, f: nat): (r: Image)
    requires g.Valid() && |img| >= g.Sectors() && c < g.totalClusters + 2 && x < FAT_VALUES && f <= g.numFats
    ensures |r| == |img|
  {
    if f == 0 then img else StoreCopy(g, FatSetImage(g, img, c, x, f - 1), c, x, f - 1)
  }

  lemma StoreFirstSeen(g: Geometry, img: Image, v: View, c: nat, x: nat, r: Image)
    requires g.Valid() && |img| >= g.Sectors() && Sees(g, img, v)
    requires c < g.totalClusters + 2 && x < FAT_VALUES
    requires r == StoreCopy(g, img, c, x, 0)
    ensures Sees(g, r, v.SetFat(c, x))
  {
    FatBounds(g, c);
    var lba := g.FatLba(c);
    var sector := StoreWord(img[lba], g.FatOffset(c), x);
    DataUntouched(g, img, v.data, lba, sector);
    FatWriteSeen(g, img, v.fat, c, x, r);
  }

  lemma StoreOtherSeen(g: Geometry, img: Image, v: View, c: nat, x: nat, f: nat, r: Image)
    requires g.Valid() && |img| >= g.Sectors() && Sees(g, img, v)
    requires c < g.totalClusters + 2 && x < FAT_VALUES && 0 < f < g.numFats
    requires r == StoreCopy(g, img, c, x, f)
    ensures Sees(g, r, v)
  {
    CopyBounds(g, f, c * 4 / SECTOR_SIZE);
    var lba := g.fatLba + Mul(f, g.fatSize) + c * 4 / SECTOR_SIZE;
    var sector := StoreWord(img[lba], g.FatOffset(c), x);
    DataUntouched(g, img, v.data, lba, sector);
    FatUntouched(g, img, v.fat, lba, sector);
  }

  /** From the first copy on, the new value is what is seen, whether or not the others were written yet. */
  lemma {:induction false} FatSetSeen(g: Geometry, img: Image, v: View, c: nat, x: nat, f: nat)
    requires g.Valid() && |img| >= g.Sectors() && Sees(g, img, v)
    requires c < g.totalClusters + 2 && x < FAT_VALUES && 1 <= f <= g.numFats
    ensures Sees(g, FatSetImage(g, img, c, x, f), v.SetFat(c, x))
  {
    hide Sees, StoreCopy;
    var r := FatSetImage(g, img, c, x, f);
    if f == 1 {
      assert FatSetImage(g, img, c, x, 0) == img;
      StoreFirstSeen(g, img, v, c, x, r);
    } else {
      FatSetSeen(g, img, v, c, x, f - 1);
      StoreOtherSeen(g, FatSetImage(g, img, c, x, f - 1), v.SetFat(c, x), c, x, f - 1, r);
    }
  }

  lemma StoreCopySector(g: Geometry, img: Image, c: nat, x: nat, f: nat, r: Image, f': nat, s: nat)
    requires g.Valid() && |img| >= g.Sectors()
    requires c < g.totalClusters + 2 && x < FAT_VALUES && f < g.numFats && f' < g.numFats && s < g.fatSize
    requires r == StoreCopy(g, img, c, x, f)
    ensures FatSector(g, r, f', s) ==
              if f' == f && s == c * 4 / SECTOR_SIZE then StoreWord(FatSector(g, img, f', s), g.FatOffset(c), x)
              else FatSector(g, img, f', s)
  {
    var t := c * 4 / SECTOR_SIZE;
    CopyBounds(g, f', s);
    CopyBounds(g, f, t);
    Digits(g.fatSize, f', s, f, t);
  }

  /** Exactly the touched sector of the first `f` copies changes, in the same way in each. */
  lemma {:induction false} FatSetSectors(g: Geometry, img: Image, c: nat, x: nat, f: nat, f': nat, s: nat)
    requires g.Valid() && |img| >= g.Sectors()
    requires c < g.totalClusters + 2 && x < FAT_VALUES && f <= g.numFats && f' < g.numFats && s < g.fatSize
    ensures FatSector(g, FatSetImage(g, img, c, x, f), f', s) ==
              if f' < f && s == c * 4 / SECTOR_SIZE then StoreWord(FatSector(g, img, f', s), g.FatOffset(c), x)
              else FatSector(g, img, f', s)
  {
    if f > 0 {
      FatSetSectors(g, img, c, x, f - 1, f', s);
      StoreCopySector(g, FatSetImage(g, img, c, x, f - 1), c, x, f - 1, FatSetImage(g, img, c, x, f), f', s);
    }
  }

  /** Storing a value in all copies keeps them identical. */
  lemma FatSetMirrored(g: Geometry, img: Image, c: nat, x: nat)
    requires g.Valid() && |img| >= g.Sectors() && Mirrored(g, img)
    requires c < g.totalClusters + 2 && x < FAT_VALUES
    ensures Mirrored(g, FatSetImage(g, img, c, x, g.numFats))
  {
    hide StoreWord, StoreCopy, FatSetImage;
    var r := FatSetImage(g, img, c, x, g.numFats);
    assert Mul(0, g.fatSize) == 0;
    forall f: nat, s: nat | f < g.numFats && s < g.fatSize
      ensures FatSector(g, r, f, s) == SectorAt(r, g.fatLba + s)
    {
      FatSetSectors(g, img, c, x, g.numFats, f, s);
      FatSetSectors(g, img, c, x, g.numFats, 0, s);
      assert FatSector(g, img, f, s) == SectorAt(img, g.fatLba + s) == FatSector(g, img, 0, s);
      assert FatSector(g, r, 0, s) == SectorAt(r, g.fatLba + s);
    }
  }
}

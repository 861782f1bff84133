/** The core of the driver: the one-sector write-back cache, the mirrored allocation table and the allocator. */
module Volumes {
  import opened Bytes
  import opened Layout
  import opened Chains
  import opened Disks

  /** The address no sector has: an empty cache. */
  const NO_SECTOR: nat := 0xFFFFFFFF

  /** History `h1` continues `h0` with writes after each of which the disk held `w`. */
  ghost predicate Appended(h0: seq<View>, h1: seq<View>, w: View) {
    h0 <= h1 && forall i | |h0| <= i < |h1| :: h1[i] == w
  }

  /** The table after linking the fresh end-of-chain cluster `c` behind `prev` (0: behind nothing). */
  function LinkedFat(fat: seq<nat>, prev: nat, c: nat): seq<nat>
    requires c < |fat| && prev < |fat|
  {
    if prev == 0 then fat[c := EOC_MARK] else fat[c := EOC_MARK][prev := c]
  }

  /** One of the writes from history `h0` to history `h1` left the disk as `w`. */
  ghost predicate Passed(h0: seq<View>, h1: seq<View>, w: View) {
    exists i {:trigger h1[i]} :: |h0| <= i < |h1| && h1[i] == w
  }

  lemma PassedOn(h0: seq<View>, h1: seq<View>, h2: seq<View>, w: View)
    requires Passed(h0, h1, w) && h1 <= h2
    ensures Passed(h0, h2, w)
  {
    var i :| |h0| <= i < |h1| && h1[i] == w;
    assert h2[i] == w;
  }

  lemma PassedSince(h0: seq<View>, h1: seq<View>, h2: seq<View>, w: View)
    requires Passed(h1, h2, w) && h0 <= h1
    ensures Passed(h0, h2, w)
  {
    var i :| |h1| <= i < |h2| && h2[i] == w;
    assert h2[i] == w;
  }

  /** What the disk may hold while a cluster is being allocated: the cluster closed but not linked yet, or linked
      and partly zeroed.  No other cluster is touched. */
  ghost predicate Allocating(g: Geometry, v: View, prev: nat, c: nat, w: View)
    requires c < |v.fat| && prev < |v.fat|
  {
    && Fits(g, w)
    && |w.data| == |v.data|
    && (forall x | 0 <= x < |v.data| && x != c :: w.data[x] == v.data[x])
    && ((w.fat == v.fat[c := EOC_MARK] && w.data == v.data) || w.fat == LinkedFat(v.fat, prev, c))
  }

  /** The entry of a cluster, if the table has one, is free. */
  predicate FreeAt(fat: seq<nat>, c: nat) {
    2 <= c < |fat| ==> fat[c] == FREE
  }

  /** The view is as before but for the sectors of `c`. */
  ghost predicate DiffersAt(v: View, c: nat, w: View) {
    && w.fat == v.fat
    && |w.data| == |v.data|
    && forall x {:trigger w.data[x]} :: 0 <= x < |v.data| && x != c ==> w.data[x] == v.data[x]
  }

  function ZeroSectors(n: nat): (z: seq<Sector>)
    ensures |z| == n && forall i | 0 <= i < n :: z[i] == ZeroSector()
  {
    seq(n, _ => ZeroSector())
  }

  /** Byte copy into a buffer. */
  method MemCpy(dst: array<Byte>, off: nat, src: seq<Byte>)
    requires off + |src| <= dst.Length
    modifies dst
    ensures dst[..] == Splice(old(dst[..]), off, src)
  {
    var n := 0;
    while n < |src|
      invariant 0 <= n <= |src|
      invariant dst[..] == Splice(old(dst[..]), off, src[..n])
    {
      dst[off + n] := src[n];
      n := n + 1;
    }
    assert src[..n] == src;
  }

  class Volume {
    const g: Geometry
    const disk: Disk
    const cache: array<Byte>
    var cacheLba: nat
    var cacheDirty: bool
    /** What the disk holds now, and what it held after each sector write since the volume was mounted. */
    ghost var view: View
    ghost var history: seq<View>
    ghost const mountedAt: nat

    ghost function Repr(): set<object> {
      {this, disk, disk.sectors, cache}
    }

    /** The cache holds the sector it claims to hold, unless it is dirty. */
    ghost predicate Coherent()
      reads Repr()
    {
      && cache.Length == SECTOR_SIZE
      && cache as object != disk.sectors
      && (cacheDirty ==> cacheLba < disk.sectors.Length)
      && (!cacheDirty && cacheLba < disk.sectors.Length ==> cache[..] == disk.sectors[cacheLba])
    }

    ghost function Cached(): Sector
      requires Coherent()
      reads Repr()
    {
      cache[..]
    }

    /** The disk as its users see it: a dirty cached sector hides the one on the disk. */
    ghost function Logical(): Image
      requires Coherent()
      reads Repr()
    {
      if cacheDirty then disk.sectors[..][cacheLba := Cached()] else disk.sectors[..]
    }

    /** The end of mount, on a disk left by any power cut: `v` is what its first table and its clusters say. */
    constructor Mount(g: Geometry, disk: Disk, ghost v: View)
      requires g.Valid() && g.numFats <= 2
      requires g.Sectors() <= disk.sectors.Length <= NO_SECTOR
      requires Fits(g, v) && Sees(g, disk.sectors[..], v)
      modifies disk, disk.sectors
      ensures this.g == g && this.disk == disk && fresh(cache)
      ensures Valid() && view == v
      ensures Appended([], history, v)
    {
      hide Sees, Mirrored;
      this.g := g;
      this.disk := disk;
      cache := new Byte[SECTOR_SIZE];
      cacheLba := NO_SECTOR;
      cacheDirty := false;
      view := v;
      history := [];
      mountedAt := |disk.trace|;
      new;
      RepairMirror();
    }

    /** Copies the first table over the second wherever they differ. */
    method RepairMirror()
      requires g.Valid() && g.numFats <= 2 && g.Sectors() <= disk.sectors.Length <= NO_SECTOR
      requires Coherent() && !cacheDirty && cacheLba == NO_SECTOR
      requires Fits(g, view) && Sees(g, disk.sectors[..], view) && HistoryIsTrace()
      modifies this`history, disk, disk.sectors
      ensures Valid()
      ensures Appended(old(history), history, view)
    {
      hide Sees, Mirrored, MirroredUpTo, Mul;
      if g.numFats < 2 {
        OneTableMirrored(g, disk.sectors[..]);
        return;
      }
      var s := 0;
      MirrorStart(g, disk.sectors[..]);
      while s < g.fatSize
        invariant 0 <= s <= g.fatSize
        invariant Coherent() && Sees(g, disk.sectors[..], view) && HistoryIsTrace()
        invariant Appended(old(history), history, view)
        invariant MirroredUpTo(g, disk.sectors[..], s)
      {
        MirrorStep(g, disk.sectors[..], view, s);
        var fat1 := disk.Read(g.fatLba + s);
        var fat2 := disk.Read(g.fatLba + g.fatSize + s);
        if fat1 != fat2 {
          disk.Write(g.fatLba + g.fatSize + s, fat1);
          history := history + [view];
        }
        s := s + 1;
      }
      TwoTablesMirrored(g, disk.sectors[..]);
    }

    method SecFlush()
      requires Coherent()
      modifies this`cacheDirty, disk, disk.sectors
      ensures Coherent() && !cacheDirty && Logical() == old(Logical())
      ensures disk.trace == old(disk.trace) + if old(cacheDirty) then [Logical()] else []
    {
      if cacheDirty {
        disk.Write(cacheLba, cache[..]);
        cacheDirty := false;
      }
    }

    method SecRead(lba: nat)
      requires Coherent() && lba < disk.sectors.Length
      modifies this`cacheDirty, this`cacheLba, cache, disk, disk.sectors
      ensures Coherent() && cacheLba == lba
      ensures Logical() == old(Logical()) && Cached() == Logical()[lba]
      ensures !old(cacheDirty) ==> !cacheDirty && disk.trace == old(disk.trace)
    {
      if cacheLba == lba {
        return;
      }
      SecFlush();
      var s := disk.Read(lba);
      MemCpy(cache, 0, s);
      assert cache[..] == s;
      cacheLba := lba;
    }

    method SecWrite(lba: nat, data: Sector)
      requires Coherent() && lba < disk.sectors.Length
      modifies this`cacheDirty, this`cacheLba, cache, disk, disk.sectors
      ensures Coherent() && cacheLba == lba
      ensures Logical() == old(Logical())[lba := data]
    {
      if cacheLba != lba {
        SecFlush();
        cacheLba := lba;
      }
      MemCpy(cache, 0, data);
      assert cache[..] == data;
      cacheDirty := true;
    }

    /** The update every writer of the driver performs: read the sector, change some bytes, flush. */
    method Patch(lba: nat, off: nat, bytes: seq<Byte>)
      requires Coherent() && !cacheDirty && lba < disk.sectors.Length && off + |bytes| <= SECTOR_SIZE
      modifies this`cacheDirty, this`cacheLba, cache, disk, disk.sectors
      ensures Coherent() && !cacheDirty && cacheLba == lba
      ensures disk.sectors[..] == old(disk.sectors[..])[lba := Splice(old(disk.sectors[lba]), off, bytes)]
      ensures disk.trace == old(disk.trace) + [disk.sectors[..]]
    {
      SecRead(lba);
      MemCpy(cache, off, bytes);
      cacheDirty := true;
      SecFlush();
    }

    /** Between operations the cache is clean, the copies of the table agree, and `view` and `history` are what the
        disk and its past images mean. */
    ghost predicate Valid()
      reads Repr()
    {
      && Coherent() && !cacheDirty
      && g.Valid()
      && g.Sectors() <= disk.sectors.Length <= NO_SECTOR
      && Fits(g, view)
      && Sees(g, disk.sectors[..], view)
      && Mirrored(g, disk.sectors[..])
      && HistoryIsTrace()
    }

    ghost predicate HistoryIsTrace()
      reads this, disk
    {
      && |disk.trace| == mountedAt + |history|
      && forall i {:trigger disk.trace[i]} :: mountedAt <= i < |disk.trace| ==>
           Sees(g, disk.trace[i], history[i - mountedAt])
    }

    method FatGet(c: nat) returns (x: nat)
      requires Valid() && c < g.totalClusters + 2
      modifies this`cacheDirty, this`cacheLba, cache, disk, disk.sectors
      ensures Valid() && disk.sectors[..] == old(disk.sectors[..])
      ensures x == view.fat[c]
    {
      var lba := g.FatLba(c);
      FatBounds(g, c);
      SecRead(lba);
      var off := g.FatOffset(c);
      x := Word(cache[..], off) % FAT_VALUES;
      assert x == FatEntry(g, disk.sectors[..], c);
    }

    /** One round of the loop of `FatSet`: the value goes into copy `f`. */
    method StoreInCopy(c: nat, value: nat, f: nat, ghost img: Image)
      requires Coherent() && !cacheDirty && g.Valid() && HistoryIsTrace()
      requires disk.sectors.Length >= g.Sectors() && |img| == disk.sectors.Length && Sees(g, img, view)
      requires c < g.totalClusters + 2 && value < FAT_VALUES && f < g.numFats
      requires disk.sectors[..] == FatSetImage(g, img, c, value, f)
      modifies Repr()
      ensures Coherent() && !cacheDirty && HistoryIsTrace() && view == old(view)
      ensures cacheLba < g.dataLba
      ensures disk.sectors[..] == FatSetImage(g, img, c, value, f + 1)
      ensures history == old(history) + [view.SetFat(c, value)]
    {
      hide Sees;
      CopyBounds(g, f, c * 4 / SECTOR_SIZE);
      var lba := g.fatLba + Mul(f, g.fatSize) + c * 4 / SECTOR_SIZE;
      var off := g.FatOffset(c);
      Patch(lba, off, Le32(value));
      FatSetSeen(g, img, view, c, value, f + 1);
      history := history + [view.SetFat(c, value)];
    }

    method FatSet(c: nat, x: nat)
      requires Valid() && c < g.totalClusters + 2 && x < U32
      modifies Repr()
      ensures Valid()
      ensures view == old(view).SetFat(c, x % FAT_VALUES)
      ensures Appended(old(history), history, view) && |old(history)| < |history|
      ensures cacheLba < g.dataLba
    {
      hide Sees, Mirrored, StoreCopy, Mul;
      var value := x % FAT_VALUES;
      ghost var img := disk.sectors[..];
      var f := 0;
      while f < g.numFats
        invariant 0 <= f <= g.numFats
        invariant Coherent() && !cacheDirty && (f > 0 ==> cacheLba < g.dataLba)
        invariant disk.sectors[..] == FatSetImage(g, img, c, value, f)
        invariant view == old(view) && HistoryIsTrace()
        invariant Appended(old(history), history, view.SetFat(c, value)) && |history| == |old(history)| + f
      {
        StoreInCopy(c, value, f, img);
        f := f + 1;
      }
      FatSetSeen(g, img, view, c, value, f);
      FatSetMirrored(g, img, c, value);
      view := view.SetFat(c, value);
    }

    /** Reading a sector of the data region through the cache. */
    method LoadData(lba: nat, ghost c: nat, ghost s: nat)
      requires Valid() && g.IsCluster(c) && s < g.secPerClus && lba == g.ClusterLba(c) + s
      modifies this`cacheDirty, this`cacheLba, cache, disk, disk.sectors
      ensures Valid()
      ensures Cached() == view.data[c][s]
    {
      DataBounds(g, c, s);
      SecRead(lba);
      assert Cached() == DataSector(g, disk.sectors[..], c, s);
    }

    /** Changing some bytes of a sector of the data region: one write of one sector. */
    method PatchData(lba: nat, off: nat, bytes: seq<Byte>, ghost c: nat, ghost s: nat)
      requires Valid() && g.IsCluster(c) && s < g.secPerClus && lba == g.ClusterLba(c) + s
      requires off + |bytes| <= SECTOR_SIZE
      modifies Repr()
      ensures Valid()
      ensures view == old(view).Patch(c, s, off, bytes)
      ensures history == old(history) + [view]
    {
      DataBounds(g, c, s);
      ghost var img := disk.sectors[..];
      assert view.data[c][s] == DataSector(g, img, c, s) == img[lba];
      Patch(lba, off, bytes);
      StoreDataSeen(img, c, s, Splice(img[lba], off, bytes));
    }

    /** Ghost bookkeeping after a sector of the data region was stored. */
    ghost method StoreDataSeen(img: Image, c: nat, s: nat, sector: Sector)
      requires g.Valid() && g.IsCluster(c) && s < g.secPerClus && |img| == disk.sectors.Length
      requires Coherent() && !cacheDirty && g.Sectors() <= disk.sectors.Length <= NO_SECTOR
      requires Sees(g, img, view) && Mirrored(g, img) && |disk.trace| > 0
      requires g.ClusterLba(c) + s < |img|
      requires disk.sectors[..] == img[g.ClusterLba(c) + s := sector]
      requires disk.trace[|disk.trace| - 1] == disk.sectors[..] && mountedAt + |history| == |disk.trace| - 1
      requires forall i {:trigger disk.trace[i]} :: mountedAt <= i < |disk.trace| - 1 ==>
                 Sees(g, disk.trace[i], history[i - mountedAt])
      modifies this`view, this`history
      ensures Valid()
      ensures view == old(view).PutSector(c, s, sector)
      ensures history == old(history) + [view]
    {
      hide SectorAt, Mul;
      DataBounds(g, c, s);
      FatBounds(g, 0);
      DataWriteSeen(g, img, view, c, s, sector);
      FatUntouched(g, img, view.fat, g.ClusterLba(c) + s, sector);
      DataWriteMirrored(g, img, g.ClusterLba(c) + s, sector);
      view := view.PutSector(c, s, sector);
      history := history + [view];
    }

    /** Zeroing a sector of a fresh cluster, past the cache: sound because the cached sector is one of the table's. */
    method ZeroPastCache(lba: nat, ghost c: nat, ghost s: nat)
      requires Valid() && g.IsCluster(c) && s < g.secPerClus && lba == g.ClusterLba(c) + s
      requires cacheLba < g.dataLba
      modifies Repr()
      ensures Valid() && cacheLba < g.dataLba
      ensures view == old(view).PutSector(c, s, ZeroSector())
      ensures history == old(history) + [view]
    {
      DataBounds(g, c, s);
      ghost var img := disk.sectors[..];
      var zero := ZeroSector();
      disk.Write(lba, zero);
      StoreDataSeen(img, c, s, zero);
    }

    /** Zeroing a fresh cluster sector by sector. */
    method ZeroCluster(c: nat)
      requires Valid() && g.IsCluster(c) && cacheLba < g.dataLba
      modifies Repr()
      ensures Valid()
      ensures view.fat == old(view).fat
      ensures view.data == old(view).data[c := ZeroSectors(g.secPerClus)]
      ensures old(history) <= history
      ensures forall i {:trigger history[i]} :: |old(history)| <= i < |history| ==>
                Fits(g, history[i]) && DiffersAt(old(view), c, history[i])
    {
      hide Sees, Mirrored, Mul;
      var lba := g.ClusterLba(c);
      var s := 0;
      while s < g.secPerClus
        invariant 0 <= s <= g.secPerClus
        invariant Valid() && cacheLba < g.dataLba
        invariant DiffersAt(old(view), c, view)
        invariant forall t {:trigger view.data[c][t]} :: 0 <= t < s ==> view.data[c][t] == ZeroSector()
        invariant old(history) <= history
        invariant forall i {:trigger history[i]} :: |old(history)| <= i < |history| ==>
                Fits(g, history[i]) && DiffersAt(old(view), c, history[i])
      {
        ZeroPastCache(lba + s, c, s);
        s := s + 1;
      }
      assert view.data[c] == ZeroSectors(g.secPerClus);
      assert view.data == old(view).data[c := ZeroSectors(g.secPerClus)];
    }

    /** First fit: closes the free cluster with the least number, links it behind `prev` and zeroes it. */
    method FatAlloc(prev: nat) returns (c: nat)
      requires Valid()
      requires prev == 0 || (g.IsCluster(prev) && view.fat[prev] != FREE)
      modifies Repr()
      ensures Valid()
      ensures c == 0 ==>
                && view == old(view) && history == old(history)
                && forall x {:trigger view.fat[x]} :: 2 <= x < |view.fat| ==> view.fat[x] != FREE
      ensures c != 0 ==>
                && g.IsCluster(c) && old(view).fat[c] == FREE
                && (forall x {:trigger old(view).fat[x]} :: 2 <= x < c ==> old(view).fat[x] != FREE)
                && view.fat == LinkedFat(old(view).fat, prev, c)
                && view.data == old(view).data[c := ZeroSectors(g.secPerClus)]
                && old(history) <= history
                && forall i {:trigger history[i]} :: |old(history)| <= i < |history| ==>
                     Allocating(g, old(view), prev, c, history[i])
      ensures c != 0 && prev != 0 ==>
                && Passed(old(history), history, View(old(view).fat[c := EOC_MARK], old(view).data))
                && Passed(old(history), history, View(view.fat, old(view).data))
    {
      hide Sees, Mirrored, Mul, Geometry.ClusterLba;
      c := 2;
      while c < g.totalClusters + 2
        invariant 2 <= c <= g.totalClusters + 2
        invariant Valid() && view == old(view) && history == old(history)
        invariant forall x {:trigger view.fat[x]} :: 2 <= x < c ==> view.fat[x] != FREE
      {
        var value := FatGet(c);
        if value == FREE {
          FatSet(c, EOC_MARK);
          ghost var closed := |history| - 1;
          if prev != 0 {
            FatSet(prev, c);
          }
          ghost var linked := |history| - 1;
          ZeroCluster(c);
          assert prev != 0 ==> history[closed] == View(old(view).fat[c := EOC_MARK], old(view).data);
          assert prev != 0 ==> history[linked] == View(view.fat, old(view).data);
          return;
        }
        c := c + 1;
      }
      c := 0;
    }

    /** Frees a chain from `start` on.  It ends on every closed table, cyclic ones included, because a freed entry
        reads back as 0; on an acyclic chain `ch` it frees exactly that chain, front to back. */
    method FatFreeChain(start: nat, ghost ch: seq<nat>)
      requires Valid()
      requires ChainFrom(g, view.fat, ch, start) || (Closed(g, view.fat) && (Follows(start) ==> g.IsCluster(start)))
      modifies Repr()
      ensures Valid() && view.data == old(view).data
      ensures Follows(start) ==> view.fat[start] == FREE
      ensures Swept(old(view).fat, view.fat, FREE)
      ensures ChainFrom(g, old(view).fat, ch, start) ==> view.fat == Cleared(old(view).fat, ch)
      ensures old(history) <= history
      ensures Follows(start) ==> |old(history)| < |history| && history[|history| - 1] == view
      ensures forall i {:trigger history[i]} :: |old(history)| <= i < |history| ==>
                && history[i].data == old(view).data && FreeAt(history[i].fat, start)
                && (ChainFrom(g, old(view).fat, ch, start) ==> PartlyFreed(old(view).fat, ch, history[i].fat))
    {
      hide Sees, Mirrored, Mul, ChainFrom, Cleared, PartlyFreed, NonFree, Swept;
      ghost var fat, chained := view.fat, ChainFrom(g, view.fat, ch, start);
      ghost var k := 0;
      var c := start;
      SweepStarts(fat, start);
      FreeingStarts(g, fat, ch, start);
      while Follows(c)
        invariant Valid() && (chained || Closed(g, view.fat)) && (Follows(c) ==> g.IsCluster(c))
        invariant view.data == old(view).data
        invariant c == start || (Follows(start) ==> view.fat[start] == FREE)
        invariant Swept(fat, view.fat, c)
        invariant chained ==> k <= |ch| && view.fat == Cleared(fat, ch[..k])
        invariant chained ==> if k < |ch| then c == ch[k] else !Follows(c)
        invariant old(history) <= history
        invariant if k == 0 then c == start else |old(history)| < |history| && history[|history| - 1] == view
        invariant forall i {:trigger history[i]} :: |old(history)| <= i < |history| ==>
                    && history[i].data == old(view).data && FreeAt(history[i].fat, start)
                    && (chained ==> PartlyFreed(fat, ch, history[i].fat))
        decreases |NonFree(view.fat)|, Follows(c)
      {
        if chained {
          FreeingStep(g, fat, ch, start, k);
        }
        SweepStep(fat, view.fat, c);
        ClearShrinks(view.fat, c);
        var next := FatGet(c);
        FatSet(c, FREE);
        c := next;
        k := k + 1;
      }
      if chained {
        FreeingEnds(g, fat, ch, start, k, c);
      }
      SweepEnds(fat, view.fat, c);
    }
  }

  lemma TraceLength(vol: Volume)
    requires vol.Valid()
    ensures |vol.disk.trace| == vol.mountedAt + |vol.history|
  {
  }
}

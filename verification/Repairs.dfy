/** The checker's own directory iterator, and what it writes when it has found something.  All of this works on any disk:
    a read past its end fails, and nothing is assumed of tables and directories. */
module Repairs {
  import opened Bytes
  import opened Layout
  import opened Chains
  import opened Disks
  import opened Volumes
  import opened Names
  import opened LongNames
  import opened ChainData
  import opened Cells
  import opened Directories

  /** A clean cache over a disk of any contents. */
  ghost predicate Idle(vol: Volume)
    reads vol.Repr()
  {
    vol.Coherent() && !vol.cacheDirty && vol.g.Valid()
  }

  /** No sector was written, and a volume in order still is. */
  twostate predicate NothingWritten(vol: Volume)
    reads vol.Repr()
  {
    && vol.disk.trace == old(vol.disk.trace) && vol.disk.sectors[..] == old(vol.disk.sectors[..])
    && (old(vol.Valid()) ==> vol.Valid())
  }

  /** Reading a sector that may not be there. */
  method ReadAny(vol: Volume, lba: nat) returns (ok: bool)
    requires Idle(vol)
    modifies vol`cacheDirty, vol`cacheLba, vol.cache, vol.disk, vol.disk.sectors
    ensures Idle(vol) && NothingWritten(vol)
    ensures ok <==> lba < vol.disk.sectors.Length
    ensures ok ==> vol.Cached() == vol.disk.sectors[lba]
  {
    hide Sees, Mirrored;
    ok := lba < vol.disk.sectors.Length;
    if ok {
      vol.SecRead(lba);
    }
  }

  /** The table entry of any number on an image; one that is not there reads as a bad cluster. */
  function TableEntry(g: Geometry, img: Image, c: nat): nat {
    if g.FatLba(c) < |img| then FatEntry(g, img, c) else BAD
  }

  method FatGetAny(vol: Volume, c: nat) returns (x: nat)
    requires Idle(vol)
    modifies vol`cacheDirty, vol`cacheLba, vol.cache, vol.disk, vol.disk.sectors
    ensures Idle(vol) && NothingWritten(vol)
    ensures x == TableEntry(vol.g, vol.disk.sectors[..], c)
  {
    hide Sees, Mirrored;
    var ok := ReadAny(vol, vol.g.FatLba(c));
    if ok {
      x := Word(vol.cache[..], vol.g.FatOffset(c)) % FAT_VALUES;
    } else {
      x := BAD;
    }
  }

  // ---- The iterator ----

  /** The iterator never falls behind its cluster. */
  predicate IterReady(g: Geometry, it: DirPos) {
    it.cluster >= 2 && it.lba >= g.ClusterLba(it.cluster) && it.off + ENTRY_SIZE <= SECTOR_SIZE && it.off % ENTRY_SIZE == 0
  }

  lemma InitReady(g: Geometry, cluster: nat)
    requires cluster >= 2
    ensures IterReady(g, DirPosInit(g, cluster))
  {
  }

  /** Where the iterator goes from entry `k` of a directory: to the next one; at the end of the chain on into the sector
      behind the last cluster. */
  ghost predicate StepsFrom(g: Geometry, fat: seq<nat>, ch: seq<nat>, k: nat, it: DirPos, it': DirPos)
    requires g.secPerClus > 0
  {
    if k + 1 < PER_SECTOR * Mul(|ch|, g.secPerClus) then At(g, ch, k + 1, it')
    else |ch| > 0 && it' == DirPos(ch[|ch| - 1], it.lba + 1, 0)
  }

  /** The iterator stands at entry `k` of a directory of a volume in order. */
  ghost predicate OnEntry(vol: Volume, ch: seq<nat>, k: nat, it: DirPos)
    reads vol.Repr()
  {
    vol.Valid() && IsChain(vol.g, vol.view.fat, ch) && At(vol.g, ch, k, it)
  }

  lemma EntryReadable(vol: Volume, ch: seq<nat>, k: nat, it: DirPos)
    requires OnEntry(vol, ch, k, it)
    ensures it.lba < vol.disk.sectors.Length && it.off + ENTRY_SIZE <= SECTOR_SIZE
    ensures k < |Dir(vol.view.data, ch)|
    ensures Dir(vol.view.data, ch)[k] == vol.disk.sectors[..][it.lba][it.off..it.off + ENTRY_SIZE]
    ensures vol.g.IsCluster(it.cluster) && |ch| > 0
  {
    hide Mul, Quot, Rem, Dir, IsChain, Mirrored, Volume.HistoryIsTrace;
    Locate(vol.g, vol.view, ch, k, it);
    var s := Rem(k / PER_SECTOR, vol.g.secPerClus);
    DataBounds(vol.g, it.cluster, s);
    assert vol.view.data[it.cluster][s] == DataSector(vol.g, vol.disk.sectors[..], it.cluster, s);
  }

  lemma StepsOn(g: Geometry, fat: seq<nat>, ch: seq<nat>, k: nat, it: DirPos, it': DirPos)
    requires g.secPerClus > 0
    ensures At(g, ch, k + 1, it') ==> StepsFrom(g, fat, ch, k, it, it') && k + 1 < PER_SECTOR * Mul(|ch|, g.secPerClus)
  {
    hide Quot, Rem, Mul, At;
    if At(g, ch, k + 1, it') {
      AtBound(g, ch, k + 1, it');
    }
  }

  lemma OffsetNext(off: nat)
    requires off % ENTRY_SIZE == 0
    ensures (off + ENTRY_SIZE) % ENTRY_SIZE == 0
  {
  }

  /** The iterator's step: to the next entry of the sector, to the next sector, or to the next cluster; behind the last
      cluster it goes on into the sector that follows on the disk. */
  function NextPos(g: Geometry, img: Image, it: DirPos): (it': DirPos)
    requires g.Valid() && IterReady(g, it)
    ensures IterReady(g, it')
  {
    hide Mul, Rem, FatEntry, Geometry.Sectors;
    OffsetNext(it.off);
    if it.off + ENTRY_SIZE < SECTOR_SIZE then it.(off := it.off + ENTRY_SIZE)
    else
      var c := TableEntry(g, img, it.cluster);
      var into := it.lba + 1 - g.ClusterLba(it.cluster);
      if Rem(into, g.secPerClus) == 0 && 2 <= c < EOC then
        DirPosInit(g, c)
      else
        it.(off := 0, lba := it.lba + 1)
  }

  /** On a directory of a volume in order it steps from entry to entry. */
  lemma NextPosSteps(g: Geometry, img: Image, fat: seq<nat>, ch: seq<nat>, k: nat, it: DirPos)
    requires g.Valid() && |img| >= g.Sectors() && SeesFat(g, img, fat) && IsChain(g, fat, ch) && At(g, ch, k, it)
    ensures IterReady(g, it) && it.lba < g.Sectors() && it.lba >= g.dataLba
    ensures StepsFrom(g, fat, ch, k, it, NextPos(g, img, it))
  {
    hide Mul, Quot, Rem, At, IsChain, Geometry.ClusterLba, SeesFat;
    NextAt(g, fat, ch, k, it);
    LastSector(g, fat, ch, k, it);
    EntryInside(g, fat, ch, k, it);
    TableSeen(g, img, fat, it.cluster);
    StepsOn(g, fat, ch, k, it, NextPos(g, img, it));
  }

  lemma TableSeen(g: Geometry, img: Image, fat: seq<nat>, c: nat)
    requires g.Valid() && |img| >= g.Sectors() && SeesFat(g, img, fat) && c < |fat|
    ensures TableEntry(g, img, c) == fat[c]
  {
    FatBounds(g, c);
    assert fat[c] == FatEntry(g, img, c);
  }

  lemma EntryInside(g: Geometry, fat: seq<nat>, ch: seq<nat>, k: nat, it: DirPos)
    requires g.Valid() && IsChain(g, fat, ch) && At(g, ch, k, it)
    ensures g.dataLba <= it.lba < g.Sectors() && |ch| > 0
  {
    hide Mul, Quot, Rem;
    var m := k / PER_SECTOR;
    QuotRem(g.secPerClus, m);
    assert g.IsCluster(ch[Quot(m, g.secPerClus)]);
    DataBounds(g, it.cluster, Rem(m, g.secPerClus));
  }

  /** The checker's step through a directory.  It never reports the end of a chain: a directory needs an unused entry to
      stop it. */
  method DirIterNext(vol: Volume, it: DirPos, ghost ch: seq<nat>, ghost k: nat) returns (ok: bool, e: Entry, it': DirPos)
    requires Idle(vol) && IterReady(vol.g, it)
    modifies vol`cacheDirty, vol`cacheLba, vol.cache, vol.disk, vol.disk.sectors
    ensures Idle(vol) && NothingWritten(vol)
    ensures ok <==> it.lba < vol.disk.sectors.Length
    ensures ok ==> it' == NextPos(vol.g, vol.disk.sectors[..], it) && e == vol.disk.sectors[it.lba][it.off..it.off + ENTRY_SIZE]
    ensures old(OnEntry(vol, ch, k, it)) ==>
              && ok && k < |Dir(vol.view.data, ch)| && e == Dir(vol.view.data, ch)[k]
              && StepsFrom(vol.g, vol.view.fat, ch, k, it, it')
  {
    hide Sees, Mirrored, Mul, Quot, Rem, At, IsChain, Geometry.ClusterLba, Dir, StepsFrom;
    ghost var on, fat, img := OnEntry(vol, ch, k, it), vol.view.fat, vol.disk.sectors[..];
    if on {
      EntryReadable(vol, ch, k, it);
      TableOf(vol);
      NextPosSteps(vol.g, img, fat, ch, k, it);
    }
    e, it' := ZeroSector()[..ENTRY_SIZE], it;
    ok := ReadAny(vol, it.lba);
    if !ok {
      return;
    }
    e := vol.cache[it.off..it.off + ENTRY_SIZE];
    it' := it'.(off := it'.off + ENTRY_SIZE);
    if it'.off >= SECTOR_SIZE {
      it' := it'.(off := 0, lba := it'.lba + 1);
      var secInClus := Rem(it'.lba - vol.g.ClusterLba(it'.cluster), vol.g.secPerClus);
      if secInClus == 0 && it'.lba != vol.g.ClusterLba(it'.cluster) {
        var nextClus := FatGetAny(vol, it'.cluster);
        if nextClus < EOC && nextClus >= 2 {
          it' := it'.(cluster := nextClus, lba := vol.g.ClusterLba(nextClus));
        }
      }
    }
  }

  lemma TableOf(vol: Volume)
    requires vol.Valid()
    ensures SeesFat(vol.g, vol.disk.sectors[..], vol.view.fat) && vol.disk.sectors.Length >= vol.g.Sectors()
  {
  }

  // ---- What it writes ----

  /** Where an edit of the entry just read goes: one entry back from where the iterator is now, by address. */
  function EditPlace(it: DirPos): (int, nat)
    requires it.off % ENTRY_SIZE == 0 && it.off < SECTOR_SIZE
  {
    if it.off == 0 then (it.lba - 1, SECTOR_SIZE - ENTRY_SIZE) else (it.lba, it.off - ENTRY_SIZE)
  }

  /** The entry just read was the last one of its cluster, and the next cluster of the directory is not the one behind. */
  predicate Jumped(it: DirPos, it': DirPos) {
    it'.cluster != it.cluster && it'.cluster != it.cluster + 1
  }

  lemma OnePosition(g: Geometry, ch: seq<nat>, k: nat, a: DirPos, b: DirPos)
    requires g.secPerClus > 0 && At(g, ch, k, a) && At(g, ch, k, b)
    ensures a == b
  {
  }

  lemma ClusterBehind(g: Geometry, c: nat, d: nat)
    requires g.secPerClus > 0 && c >= 2 && d >= 2
    ensures g.ClusterLba(d) == g.ClusterLba(c) + g.secPerClus <==> d == c + 1
  {
    Digits(g.secPerClus, d - 2, 0, c - 1, 0);
    Digits(g.secPerClus, c - 1, 0, d - 2, 0);
  }

  /** An edit goes to the entry just read exactly if the iterator did not jump.  Otherwise it goes to the sector in front of
      the next cluster, whatever that belongs to. */
  lemma EditHits(g: Geometry, fat: seq<nat>, ch: seq<nat>, k: nat, it: DirPos, it': DirPos)
    requires g.Valid() && IsChain(g, fat, ch) && At(g, ch, k, it) && StepsFrom(g, fat, ch, k, it, it') && IterReady(g, it')
    ensures EditPlace(it') == (it.lba, it.off) <==> !Jumped(it, it')
    ensures Jumped(it, it') ==> EditPlace(it') == (g.ClusterLba(it'.cluster) - 1, SECTOR_SIZE - ENTRY_SIZE)
  {
    hide Mul, Quot, Rem, At, Geometry.ClusterLba, IsChain;
    NextAt(g, fat, ch, k, it);
    LastSector(g, fat, ch, k, it);
    StepsOn(g, fat, ch, k, it, it.(off := it.off + ENTRY_SIZE));
    StepsOn(g, fat, ch, k, it, it.(off := 0, lba := it.lba + 1));
    StepsOn(g, fat, ch, k, it, DirPos(fat[it.cluster], if Follows(fat[it.cluster]) then g.ClusterLba(fat[it.cluster]) else 0, 0));
    if k + 1 < PER_SECTOR * Mul(|ch|, g.secPerClus) {
      if it.off + ENTRY_SIZE < SECTOR_SIZE {
        OnePosition(g, ch, k + 1, it', it.(off := it.off + ENTRY_SIZE));
      } else if Rem(it.lba + 1 - g.ClusterLba(it.cluster), g.secPerClus) != 0 {
        OnePosition(g, ch, k + 1, it', it.(off := 0, lba := it.lba + 1));
      } else {
        var c := fat[it.cluster];
        OnePosition(g, ch, k + 1, it', DirPos(c, g.ClusterLba(c), 0));
        ClusterBehind(g, it.cluster, c);
        ClusterBehind(g, c, it.cluster);
      }
    }
  }

  /** The last sector of a cluster. */
  lemma LastSector(g: Geometry, fat: seq<nat>, ch: seq<nat>, k: nat, it: DirPos)
    requires g.Valid() && IsChain(g, fat, ch) && At(g, ch, k, it)
    ensures it.cluster < |fat| && it.cluster >= 2 && it.off < SECTOR_SIZE && it.off % ENTRY_SIZE == 0
    ensures it.lba >= g.ClusterLba(it.cluster)
    ensures Rem(it.lba + 1 - g.ClusterLba(it.cluster), g.secPerClus) == 0 ==>
              it.lba + 1 == g.ClusterLba(it.cluster) + g.secPerClus
    ensures Follows(fat[it.cluster]) ==> fat[it.cluster] != it.cluster
  {
    hide Mul, Quot, Rem;
    var m := k / PER_SECTOR;
    var q := Quot(m, g.secPerClus);
    QuotRem(g.secPerClus, m);
    QuotRemNext(g.secPerClus, m);
    assert ch[q] == it.cluster && fat[ch[q]] == fat[it.cluster];
    if q + 1 < |ch| {
      assert ch[q] != ch[q + 1];
    }
  }

  /** The image with some bytes of a sector changed. */
  ghost function Edited(img: Image, lba: nat, off: nat, bytes: seq<Byte>): Image
    requires lba < |img| && off + |bytes| <= SECTOR_SIZE
  {
    img[lba := Splice(img[lba], off, bytes)]
  }

  /** What an edit of the entry just read does, if the place it goes to is on the disk. */
  ghost predicate MarkedDeleted(img: Image, it: DirPos, img': Image, failures: nat)
    requires it.off % ENTRY_SIZE == 0 && it.off < SECTOR_SIZE
  {
    var (lba, off) := EditPlace(it);
    if 0 <= lba < |img| then img' == Edited(img, lba, off, [0xE5]) && failures == 0 else img' == img && failures == 1
  }

  /** Marks the entry just read as deleted. */
  method DeleteEntry(vol: Volume, it: DirPos) returns (ok: bool)
    requires Idle(vol) && IterReady(vol.g, it)
    modifies vol`cacheDirty, vol`cacheLba, vol.cache, vol.disk, vol.disk.sectors
    ensures Idle(vol) && MarkedDeleted(old(vol.disk.sectors[..]), it, vol.disk.sectors[..], if ok then 0 else 1)
    ensures ok ==> vol.disk.trace == old(vol.disk.trace) + [vol.disk.sectors[..]]
    ensures !ok ==> NothingWritten(vol)
  {
    hide Sees, Mirrored;
    var lba, off := it.lba, it.off;
    if off == 0 {
      lba, off := lba - 1, SECTOR_SIZE - ENTRY_SIZE;
    } else {
      off := off - ENTRY_SIZE;
    }
    ok := 0 <= lba < vol.disk.sectors.Length;
    if ok {
      vol.Patch(lba, off, [DELETED]);
    }
  }

  // ---- A range of entries ----

  /** Step `i` of a scan over a disk that changes on the way, on which the entries from number `first` on are marked. */
  ghost predicate MarkingStep(g: Geometry, first: nat, imgs: seq<Image>, its: seq<DirPos>, i: nat)
    requires g.Valid() && i + 1 < |its| == |imgs|
  {
    && IterReady(g, its[i]) && its[i].lba < |imgs[i]| && its[i + 1] == NextPos(g, imgs[i], its[i])
    && if first <= i then exists f {:trigger MarkedDeleted(imgs[i], its[i + 1], imgs[i + 1], f)} ::
                            MarkedDeleted(imgs[i], its[i + 1], imgs[i + 1], f)
       else imgs[i + 1] == imgs[i]
  }

  /** A scan from the front of a directory, over the images `imgs` and the positions `its`, that marks entries `first` to
      `last` as it goes; it stops early where the disk ends. */
  ghost predicate MarkingScan(g: Geometry, img: Image, dirCluster: nat, first: nat, last: nat, imgs: seq<Image>,
                              its: seq<DirPos>, img': Image)
    requires g.Valid() && dirCluster >= 2
  {
    && 1 <= |its| == |imgs| <= last + 2
    && imgs[0] == img && imgs[|imgs| - 1] == img' && its[0] == DirPosInit(g, dirCluster)
    && (forall i {:trigger MarkingStep(g, first, imgs, its, i)} :: 0 <= i < |its| - 1 ==> MarkingStep(g, first, imgs, its, i))
    && (|its| < last + 2 ==> its[|its| - 1].lba >= |img'|)
  }

  ghost predicate RangeMarked(g: Geometry, img: Image, dirCluster: nat, first: nat, last: nat, img': Image)
    requires g.Valid() && dirCluster >= 2
  {
    exists imgs, its {:trigger MarkingScan(g, img, dirCluster, first, last, imgs, its, img')} ::
      MarkingScan(g, img, dirCluster, first, last, imgs, its, img')
  }

  /** The directory goes from cluster to next cluster on the disk between its entries `first` to `last` and the one behind. */
  ghost predicate NoJump(g: Geometry, ch: seq<nat>, first: nat, last: nat) {
    forall q: nat {:trigger ch[q]} :: q + 1 < |ch| && first < PER_SECTOR * Mul(q + 1, g.secPerClus) <= last + 1 ==>
      ch[q + 1] == ch[q] + 1
  }

  /** One of the entries `first` to `last` begins at byte `b` of sector `a`. */
  ghost predicate Begins(g: Geometry, ch: seq<nat>, first: nat, last: int, a: nat, b: nat)
    requires g.secPerClus > 0
  {
    exists k: nat, pos {:trigger At(g, ch, k, pos)} :: first <= k <= last && At(g, ch, k, pos) && pos.lba == a && pos.off == b
  }

  /** The images differ by 0xE5 in the first byte of each of the entries `first` to `last`, and nowhere else. */
  ghost predicate JustTheRange(g: Geometry, ch: seq<nat>, first: nat, last: int, img: Image, img': Image)
    requires g.secPerClus > 0
  {
    && |img'| == |img|
    && forall a: nat, b: nat {:trigger img'[a][b]} :: a < |img| && b < SECTOR_SIZE ==>
         img'[a][b] == if Begins(g, ch, first, last, a, b) then 0xE5 else img[a][b]
  }

  /** What a directory of a volume in order is to the checker: `dirCluster` begins its chain. */
  ghost predicate DirOf(g: Geometry, img: Image, fat: seq<nat>, ch: seq<nat>, dirCluster: nat) {
    g.Valid() && |img| >= g.Sectors() && SeesFat(g, img, fat) && IsChain(g, fat, ch) && ch[0] == dirCluster
  }

  lemma NotJumped(g: Geometry, fat: seq<nat>, ch: seq<nat>, first: nat, last: nat, k: nat, it: DirPos, it': DirPos)
    requires g.Valid() && IsChain(g, fat, ch) && NoJump(g, ch, first, last) && first <= k <= last
    requires At(g, ch, k, it) && StepsFrom(g, fat, ch, k, it, it')
    ensures !Jumped(it, it')
  {
    hide Mul, Quot, Rem, IsChain;
    var m := k / PER_SECTOR;
    var q := Quot(m, g.secPerClus);
    IndexBound(g, |ch|, k);
    IndexBound(g, |ch|, k + 1);
    QuotRem(g.secPerClus, m);
    QuotRemNext(g.secPerClus, m);
    QuotRem(g.secPerClus, m + 1);
    if q + 1 < |ch| {
      var _ := ch[q];
    }
  }

  /** One step of a scan over a directory of a volume in order. */
  lemma RangeStep(g: Geometry, img: Image, fat: seq<nat>, ch: seq<nat>, first: nat, last: nat, imgs: seq<Image>,
                  its: seq<DirPos>, i: nat)
    requires ch != [] && DirOf(g, img, fat, ch, ch[0]) && NoJump(g, ch, first, last) && i + 1 < |its| == |imgs| && i <= last
    requires MarkingStep(g, first, imgs, its, i) && At(g, ch, i, its[i])
    requires JustTheRange(g, ch, first, i - 1, img, imgs[i]) && SeesFat(g, imgs[i], fat)
    ensures StepsFrom(g, fat, ch, i, its[i], its[i + 1])
    ensures JustTheRange(g, ch, first, i, img, imgs[i + 1]) && SeesFat(g, imgs[i + 1], fat)
  {
    hide SeesFat, IsChain, At, NextPos, StepsFrom, NoJump, Begins, Geometry.ClusterLba, Mul;
    NextPosSteps(g, imgs[i], fat, ch, i, its[i]);
    if first <= i {
      NextPosReady(g, imgs[i], its[i]);
      NotJumped(g, fat, ch, first, last, i, its[i], its[i + 1]);
      EditHits(g, fat, ch, i, its[i], its[i + 1]);
      FatBounds(g, 0);
      var sector: Sector := Splice(imgs[i][its[i].lba], its[i].off, [0xE5]);
      FatUntouched(g, imgs[i], fat, its[i].lba, sector);
      assert imgs[i + 1] == imgs[i][its[i].lba := sector];
    }
    forall a: nat, b: nat
      ensures Begins(g, ch, first, i, a, b) <==>
                Begins(g, ch, first, i - 1, a, b) || (first <= i && a == its[i].lba && b == its[i].off)
    {
      BeginsNext(g, ch, first, i, its[i], a, b);
    }
  }

  lemma NextPosReady(g: Geometry, img: Image, it: DirPos)
    requires g.Valid() && IterReady(g, it)
    ensures IterReady(g, NextPos(g, img, it))
  {
  }

  lemma BeginsNext(g: Geometry, ch: seq<nat>, first: nat, i: nat, it: DirPos, a: nat, b: nat)
    requires g.secPerClus > 0 && At(g, ch, i, it)
    ensures Begins(g, ch, first, i, a, b) <==>
              Begins(g, ch, first, i - 1, a, b) || (first <= i && a == it.lba && b == it.off)
  {
    if Begins(g, ch, first, i, a, b) {
      var k: nat, pos :| first <= k <= i && At(g, ch, k, pos) && pos.lba == a && pos.off == b;
      if k == i {
        OnePosition(g, ch, i, it, pos);
      }
    }
  }

  lemma NothingBegins(g: Geometry, ch: seq<nat>, first: nat, img: Image)
    requires g.secPerClus > 0
    ensures JustTheRange(g, ch, first, -1, img, img)
  {
  }

  lemma {:induction false} RangeSteps(g: Geometry, img: Image, fat: seq<nat>, ch: seq<nat>, first: nat, last: nat,
                                      imgs: seq<Image>, its: seq<DirPos>, img': Image, i: nat)
    requires ch != [] && DirOf(g, img, fat, ch, ch[0]) && ch[0] >= 2 && NoJump(g, ch, first, last)
    requires MarkingScan(g, img, ch[0], first, last, imgs, its, img')
    requires last < PER_SECTOR * Mul(|ch|, g.secPerClus) && i < |its|
    ensures JustTheRange(g, ch, first, i - 1, img, imgs[i]) && SeesFat(g, imgs[i], fat)
    ensures i < PER_SECTOR * Mul(|ch|, g.secPerClus) ==> At(g, ch, i, its[i])
  {
    hide SeesFat, At, MarkingStep, StepsFrom, NoJump, JustTheRange, Mul, Geometry.ClusterLba, Geometry.Sectors;
    if i == 0 {
      InitAt(g, fat, ch);
      NothingBegins(g, ch, first, img);
    } else {
      RangeSteps(g, img, fat, ch, first, last, imgs, its, img', i - 1);
      assert MarkingStep(g, first, imgs, its, i - 1);
      RangeStep(g, img, fat, ch, first, last, imgs, its, i - 1);
      assert StepsFrom(g, fat, ch, i - 1, its[i - 1], its[i]);
      StepsToNext(g, fat, ch, i - 1, its[i - 1], its[i]);
    }
  }

  lemma StepsToNext(g: Geometry, fat: seq<nat>, ch: seq<nat>, k: nat, it: DirPos, it': DirPos)
    requires g.secPerClus > 0 && StepsFrom(g, fat, ch, k, it, it')
    ensures k + 1 < PER_SECTOR * Mul(|ch|, g.secPerClus) ==> At(g, ch, k + 1, it')
  {
    hide At, Mul;
  }

  /** On a directory of a volume in order, without a jump in the range, exactly the entries of the range are marked. */
  lemma RangeMarkedExactly(g: Geometry, img: Image, fat: seq<nat>, ch: seq<nat>, dirCluster: nat, first: nat, last: nat, img': Image)
    requires DirOf(g, img, fat, ch, dirCluster) && dirCluster >= 2
    requires last < PER_SECTOR * Mul(|ch|, g.secPerClus) && NoJump(g, ch, first, last)
    requires RangeMarked(g, img, dirCluster, first, last, img')
    ensures JustTheRange(g, ch, first, last, img, img')
  {
    hide SeesFat, At, NoJump, Mul, Geometry.Sectors, MarkingStep;
    var imgs, its :| MarkingScan(g, img, dirCluster, first, last, imgs, its, img');
    var n := |its| - 1;
    RangeSteps(g, img, fat, ch, first, last, imgs, its, img', n);
    if n <= last {
      EntryInside(g, fat, ch, n, its[n]);
    }
  }

  /** On a volume with this table: for a directory without a jump in the range, the images differ by its marks and nothing
      else. */
  ghost predicate InOrderRange(g: Geometry, fat: seq<nat>, dirCluster: nat, first: nat, last: nat, img: Image, img': Image)
    requires g.secPerClus > 0
  {
    forall ch {:trigger IsChain(g, fat, ch)} ::
      IsChain(g, fat, ch) && ch[0] == dirCluster && last < PER_SECTOR * Mul(|ch|, g.secPerClus) && NoJump(g, ch, first, last) ==>
        JustTheRange(g, ch, first, last, img, img')
  }

  lemma RangeInOrder(g: Geometry, img: Image, fat: seq<nat>, dirCluster: nat, first: nat, last: nat, img': Image)
    requires g.Valid() && dirCluster >= 2 && |img| >= g.Sectors() && SeesFat(g, img, fat)
    requires RangeMarked(g, img, dirCluster, first, last, img')
    ensures InOrderRange(g, fat, dirCluster, first, last, img, img')
  {
    hide SeesFat, NoJump, Mul, Geometry.Sectors, RangeMarked, JustTheRange;
    forall ch | IsChain(g, fat, ch) && ch[0] == dirCluster && last < PER_SECTOR * Mul(|ch|, g.secPerClus) && NoJump(g, ch, first, last)
      ensures JustTheRange(g, ch, first, last, img, img')
    {
      RangeMarkedExactly(g, img, fat, ch, dirCluster, first, last, img');
    }
  }

  /** Marks entries `first` to `last` of a directory as deleted. */
  method DeleteEntriesRange(vol: Volume, dirCluster: nat, first: nat, last: nat)
    requires Idle(vol) && dirCluster >= 2
    modifies vol`cacheDirty, vol`cacheLba, vol.cache, vol.disk, vol.disk.sectors
    ensures Idle(vol) && old(vol.disk.trace) <= vol.disk.trace
    ensures RangeMarked(vol.g, old(vol.disk.sectors[..]), dirCluster, first, last, vol.disk.sectors[..])
    ensures old(vol.Valid()) ==>
              InOrderRange(vol.g, vol.view.fat, dirCluster, first, last, old(vol.disk.sectors[..]), vol.disk.sectors[..])
    ensures first <= last + 1 ==> |vol.disk.trace| <= |old(vol.disk.trace)| + (last + 1 - first)
    ensures last < first ==> NothingWritten(vol)
  {
    hide Sees, Mirrored, Geometry.ClusterLba, NextPos, MarkedDeleted, InOrderRange;
    InitReady(vol.g, dirCluster);
    ghost var img, inOrder, fat := vol.disk.sectors[..], vol.Valid(), vol.view.fat;
    if inOrder {
      TableOf(vol);
    }
    var scan := DirPosInit(vol.g, dirCluster);
    ghost var imgs, its: seq<DirPos> := [img], [scan];
    var i := 0;
    while i <= last
      invariant 0 <= i <= last + 1 && Idle(vol) && IterReady(vol.g, scan)
      invariant old(vol.disk.trace) <= vol.disk.trace
      invariant |vol.disk.trace| <= |old(vol.disk.trace)| + (if first <= i then i - first else 0)
      invariant i <= first ==> NothingWritten(vol)
      invariant |imgs| == |its| == i + 1 && imgs[0] == img && its[0] == DirPosInit(vol.g, dirCluster)
      invariant imgs[i] == vol.disk.sectors[..] && its[i] == scan
      invariant forall j {:trigger MarkingStep(vol.g, first, imgs, its, j)} :: 0 <= j < i ==> MarkingStep(vol.g, first, imgs, its, j)
    {
      var ok, _, next := DirIterNext(vol, scan, [], 0);
      if !ok {
        break;
      }
      NextPosReady(vol.g, imgs[i], scan);
      scan := next;
      if first <= i {
        var _ := DeleteEntry(vol, scan);
      }
      ghost var imgs', its' := imgs + [vol.disk.sectors[..]], its + [scan];
      StepsKept(vol.g, first, imgs, its, imgs', its');
      imgs, its := imgs', its';
      i := i + 1;
    }
    assert MarkingScan(vol.g, img, dirCluster, first, last, imgs, its, vol.disk.sectors[..]);
    if inOrder {
      RangeInOrder(vol.g, img, fat, dirCluster, first, last, vol.disk.sectors[..]);
    }
  }

  lemma StepsKept(g: Geometry, first: nat, imgs: seq<Image>, its: seq<DirPos>, imgs': seq<Image>, its': seq<DirPos>)
    requires g.Valid() && |imgs| == |its| && |imgs'| == |its'| && imgs <= imgs' && its <= its'
    requires forall j {:trigger MarkingStep(g, first, imgs, its, j)} :: 0 <= j < |its| - 1 ==> MarkingStep(g, first, imgs, its, j)
    ensures forall j {:trigger MarkingStep(g, first, imgs', its', j)} :: 0 <= j < |its| - 1 ==> MarkingStep(g, first, imgs', its', j)
  {
    hide NextPos, MarkedDeleted;
    forall j | 0 <= j < |its| - 1
      ensures MarkingStep(g, first, imgs', its', j)
    {
      assert MarkingStep(g, first, imgs, its, j);
    }
  }

  // ---- An entry loses its chain ----

  /** An entry that has neither chain nor contents any more. */
  function ClearedEntry(e: Entry): (r: Entry)
    ensures EntryCluster(r) == 0 && EntrySize(r) == 0 && r[..20] == e[..20] && r[22..26] == e[22..26]
  {
    e[..20] + [0, 0] + e[22..26] + [0, 0, 0, 0, 0, 0]
  }

  /** Where the iterator is after `n` steps over an image. */
  function ScanPos(g: Geometry, img: Image, dirCluster: nat, n: nat): (it: DirPos)
    requires g.Valid() && dirCluster >= 2
    ensures IterReady(g, it)
  {
    if n == 0 then
      InitReady(g, dirCluster);
      DirPosInit(g, dirCluster)
    else NextPos(g, img, ScanPos(g, img, dirCluster, n - 1))
  }

  /** The entry just in front of where the iterator is after `entryIdx + 1` steps lost its chain and its size, if the scan
      gets there without leaving the disk. */
  ghost predicate EntryDetached(g: Geometry, img: Image, dirCluster: nat, entryIdx: nat, ok: bool, img': Image)
    requires g.Valid() && dirCluster >= 2
  {
    var (lba, off) := EditPlace(ScanPos(g, img, dirCluster, entryIdx + 1));
    && (ok <==> 0 <= lba < |img| && forall i: nat {:trigger ScanPos(g, img, dirCluster, i)} :: i <= entryIdx ==>
                  ScanPos(g, img, dirCluster, i).lba < |img|)
    && img' == if ok then Edited(img, lba, off, ClearedEntry(img[lba][off..off + ENTRY_SIZE])) else img
  }

  /** On a directory of a volume in order the iterator is at entry `n` after `n` steps. */
  lemma {:induction false} ScanPosAt(g: Geometry, img: Image, fat: seq<nat>, ch: seq<nat>, n: nat)
    requires ch != [] && DirOf(g, img, fat, ch, ch[0]) && ch[0] >= 2 && n < PER_SECTOR * Mul(|ch|, g.secPerClus)
    ensures At(g, ch, n, ScanPos(g, img, ch[0], n))
  {
    hide At, SeesFat, Mul, IsChain, NextPos, StepsFrom, Geometry.ClusterLba;
    if n == 0 {
      InitAt(g, fat, ch);
    } else {
      ScanPosAt(g, img, fat, ch, n - 1);
      var it := ScanPos(g, img, ch[0], n - 1);
      NextPosSteps(g, img, fat, ch, n - 1, it);
      StepsToNext(g, fat, ch, n - 1, it, NextPos(g, img, it));
    }
  }

  /** There, the entry that loses its chain is entry `entryIdx`, unless it is the last one in front of a jump. */
  lemma DetachedExactly(g: Geometry, img: Image, fat: seq<nat>, ch: seq<nat>, dirCluster: nat, entryIdx: nat, pos: DirPos,
                        ok: bool, img': Image)
    requires DirOf(g, img, fat, ch, dirCluster) && dirCluster >= 2 && At(g, ch, entryIdx, pos)
    requires NoJump(g, ch, entryIdx, entryIdx) && EntryDetached(g, img, dirCluster, entryIdx, ok, img')
    ensures ok && pos.lba < |img| && pos.off + ENTRY_SIZE <= SECTOR_SIZE
    ensures img' == Edited(img, pos.lba, pos.off, ClearedEntry(img[pos.lba][pos.off..pos.off + ENTRY_SIZE]))
  {
    hide At, SeesFat, Mul, NextPos, StepsFrom, Geometry.ClusterLba, NoJump, ClearedEntry, Geometry.Sectors;
    AtBound(g, ch, entryIdx, pos);
    forall i: nat {:trigger ScanPos(g, img, dirCluster, i)} | i <= entryIdx
      ensures ScanPos(g, img, dirCluster, i).lba < |img|
    {
      ScanPosAt(g, img, fat, ch, i);
      EntryInside(g, fat, ch, i, ScanPos(g, img, dirCluster, i));
    }
    ScanPosAt(g, img, fat, ch, entryIdx);
    OnePosition(g, ch, entryIdx, pos, ScanPos(g, img, dirCluster, entryIdx));
    NextPosSteps(g, img, fat, ch, entryIdx, pos);
    NextPosReady(g, img, pos);
    NotJumped(g, fat, ch, entryIdx, entryIdx, entryIdx, pos, NextPos(g, img, pos));
    EditHits(g, fat, ch, entryIdx, pos, NextPos(g, img, pos));
  }

  /** On a volume with this table: entry `entryIdx` of the directory lost its chain, if it is not in front of a jump. */
  ghost predicate InOrderDetached(g: Geometry, fat: seq<nat>, dirCluster: nat, entryIdx: nat, img: Image, ok: bool, img': Image)
    requires g.secPerClus > 0
  {
    forall ch, pos {:trigger IsChain(g, fat, ch), At(g, ch, entryIdx, pos)} ::
      IsChain(g, fat, ch) && ch[0] == dirCluster && At(g, ch, entryIdx, pos) && NoJump(g, ch, entryIdx, entryIdx) ==>
        && ok && pos.lba < |img| && pos.off + ENTRY_SIZE <= SECTOR_SIZE
        && img' == Edited(img, pos.lba, pos.off, ClearedEntry(img[pos.lba][pos.off..pos.off + ENTRY_SIZE]))
  }

  lemma DetachedInOrder(g: Geometry, img: Image, fat: seq<nat>, dirCluster: nat, entryIdx: nat, ok: bool, img': Image)
    requires g.Valid() && dirCluster >= 2 && |img| >= g.Sectors() && SeesFat(g, img, fat)
    requires EntryDetached(g, img, dirCluster, entryIdx, ok, img')
    ensures InOrderDetached(g, fat, dirCluster, entryIdx, img, ok, img')
  {
    hide SeesFat, NoJump, Mul, Geometry.Sectors, EntryDetached, At, ClearedEntry, Edited;
    forall ch, pos {:trigger IsChain(g, fat, ch), At(g, ch, entryIdx, pos)}
      | IsChain(g, fat, ch) && ch[0] == dirCluster && At(g, ch, entryIdx, pos) && NoJump(g, ch, entryIdx, entryIdx)
      ensures ok && pos.lba < |img| && pos.off + ENTRY_SIZE <= SECTOR_SIZE
      ensures img' == Edited(img, pos.lba, pos.off, ClearedEntry(img[pos.lba][pos.off..pos.off + ENTRY_SIZE]))
    {
      DetachedExactly(g, img, fat, ch, dirCluster, entryIdx, pos, ok, img');
    }
  }

  /** Takes the chain from entry `entryIdx` of a directory. */
  method ZeroEntryCluster(vol: Volume, dirCluster: nat, entryIdx: nat) returns (ok: bool)
    requires Idle(vol) && dirCluster >= 2
    modifies vol`cacheDirty, vol`cacheLba, vol.cache, vol.disk, vol.disk.sectors
    ensures Idle(vol) && (!ok ==> NothingWritten(vol))
    ensures ok ==> vol.disk.trace == old(vol.disk.trace) + [vol.disk.sectors[..]]
    ensures EntryDetached(vol.g, old(vol.disk.sectors[..]), dirCluster, entryIdx, ok, vol.disk.sectors[..])
  {
    hide Sees, Mirrored, Geometry.ClusterLba, ClearedEntry, NextPos;
    InitReady(vol.g, dirCluster);
    ghost var img := vol.disk.sectors[..];
    var it := DirPosInit(vol.g, dirCluster);
    var i := 0;
    while i <= entryIdx
      invariant 0 <= i <= entryIdx + 1 && Idle(vol) && IterReady(vol.g, it) && NothingWritten(vol)
      invariant vol.disk.sectors[..] == img && it == ScanPos(vol.g, img, dirCluster, i)
      invariant forall j: nat {:trigger ScanPos(vol.g, img, dirCluster, j)} :: j < i ==> ScanPos(vol.g, img, dirCluster, j).lba < |img|
    {
      var more, _, next := DirIterNext(vol, it, [], 0);
      if !more {
        return false;
      }
      NextPosReady(vol.g, img, it);
      it := next;
      i := i + 1;
    }
    var lba, off := EditPlace(it).0, EditPlace(it).1;
    if lba < 0 || lba >= vol.disk.sectors.Length {
      return false;
    }
    vol.SecRead(lba);
    var e := ClearedEntry(vol.cache[off..off + ENTRY_SIZE]);
    vol.Patch(lba, off, e);
    ok := true;
  }

  // ---- Acting on what was counted ----

  /** What the checker does about an entry: it deletes the long-name records in front of it or the record itself, and the
      entry if it is invalid.  `it` is the iterator behind the entry; `mid` is the disk between the two, and
      `first` says how often the first one failed. */
  method RepairEntry(vol: Volume, it: DirPos, e: Entry, orphans: nat, invalid: nat, dirCluster: nat, lfnStart: nat, entryIdx: nat)
    returns (failures: nat, ghost mid: Image, ghost first: nat)
    requires Idle(vol) && IterReady(vol.g, it) && dirCluster >= 2
    requires orphans > 0 && e[11] != ATTR_LFN ==> entryIdx > 0
    modifies vol`cacheDirty, vol`cacheLba, vol.cache, vol.disk, vol.disk.sectors
    ensures Idle(vol) && old(vol.disk.trace) <= vol.disk.trace
    ensures orphans == 0 && invalid == 0 ==> failures == 0 && NothingWritten(vol)
    ensures if orphans == 0 then mid == old(vol.disk.sectors[..]) && first == 0
            else if e[11] == ATTR_LFN then MarkedDeleted(old(vol.disk.sectors[..]), it, mid, first)
            else RangeMarked(vol.g, old(vol.disk.sectors[..]), dirCluster, lfnStart, entryIdx - 1, mid) && first == 0
    ensures orphans > 0 && e[11] != ATTR_LFN && old(vol.Valid()) ==>
              InOrderRange(vol.g, vol.view.fat, dirCluster, lfnStart, entryIdx - 1, old(vol.disk.sectors[..]), mid)
    ensures first <= failures
    ensures if invalid == 0 then vol.disk.sectors[..] == mid && failures == first
            else MarkedDeleted(mid, it, vol.disk.sectors[..], failures - first)
  {
    hide Sees, Mirrored, Edited, Geometry.ClusterLba, MarkedDeleted, RangeMarked, InOrderRange;
    failures := 0;
    if orphans > 0 {
      if e[11] == ATTR_LFN {
        var ok := DeleteEntry(vol, it);
        failures := if ok then 0 else 1;
      } else {
        DeleteEntriesRange(vol, dirCluster, lfnStart, entryIdx - 1);
      }
    }
    mid := vol.disk.sectors[..];
    first := failures;
    if invalid > 0 {
      var ok := DeleteEntry(vol, it);
      failures := failures + if ok then 0 else 1;
    }
  }

  /** What it does about an entry whose chain runs into another entry's. */
  method DetachIfCrossed(vol: Volume, crosslinks: nat, dirCluster: nat, entryIdx: nat) returns (failures: nat)
    requires Idle(vol) && dirCluster >= 2
    modifies vol`cacheDirty, vol`cacheLba, vol.cache, vol.disk, vol.disk.sectors
    ensures Idle(vol) && old(vol.disk.trace) <= vol.disk.trace
    ensures crosslinks == 0 ==> failures == 0 && NothingWritten(vol)
    ensures crosslinks > 0 ==> failures <= 1 && |vol.disk.trace| + failures == |old(vol.disk.trace)| + 1
    ensures crosslinks > 0 ==> EntryDetached(vol.g, old(vol.disk.sectors[..]), dirCluster, entryIdx, failures == 0, vol.disk.sectors[..])
    ensures crosslinks > 0 && old(vol.Valid()) ==>
              InOrderDetached(vol.g, vol.view.fat, dirCluster, entryIdx, old(vol.disk.sectors[..]), failures == 0,
                              vol.disk.sectors[..])
  {
    hide Sees, Mirrored, Edited, ClearedEntry, EntryDetached, InOrderDetached;
    ghost var img, inOrder, fat := vol.disk.sectors[..], vol.Valid(), vol.view.fat;
    if inOrder {
      TableOf(vol);
    }
    failures := 0;
    if crosslinks > 0 {
      var ok := ZeroEntryCluster(vol, dirCluster, entryIdx);
      failures := if ok then 0 else 1;
      if inOrder {
        DetachedInOrder(vol.g, img, fat, dirCluster, entryIdx, ok, vol.disk.sectors[..]);
      }
    }
  }

  // ---- The two tables ----

  function First(g: Geometry, img: Image, s: nat): Sector {
    SectorAt(img, g.fatLba + s)
  }

  function Second(g: Geometry, img: Image, s: nat): Sector {
    SectorAt(img, g.fatLba + g.fatSize + s)
  }

  /** In how many of the first `n` sectors the second table differs from the first. */
  function Differing(g: Geometry, img: Image, n: nat): nat {
    if n == 0 then 0
    else Differing(g, img, n - 1) + if First(g, img, n - 1) != Second(g, img, n - 1) then 1 else 0
  }

  /** The image with the first `n` sectors of the first table copied over the second. */
  ghost predicate CopiedUpTo(g: Geometry, img: Image, n: nat, img': Image) {
    && |img'| == |img|
    && (forall s {:trigger Second(g, img', s)} :: 0 <= s < n ==> Second(g, img', s) == First(g, img, s))
    && forall a {:trigger img'[a]} :: 0 <= a < |img| && !(g.fatLba + g.fatSize <= a < g.fatLba + g.fatSize + n) ==>
         img'[a] == img[a]
  }

  /** The first check, on any disk: the second table becomes a copy of the first, with a write for every sector in which
      they differed and no other change. */
  method CheckFatMismatch(g: Geometry, disk: Disk) returns (mismatches: nat)
    requires g.Valid() && g.Sectors() <= disk.sectors.Length
    modifies disk, disk.sectors
    ensures mismatches == if g.numFats < 2 then 0 else Differing(g, old(disk.sectors[..]), g.fatSize)
    ensures CopiedUpTo(g, old(disk.sectors[..]), if g.numFats < 2 then 0 else g.fatSize, disk.sectors[..])
    ensures old(disk.trace) <= disk.trace && |disk.trace| == |old(disk.trace)| + mismatches
    ensures mismatches == 0 ==> disk.sectors[..] == old(disk.sectors[..])
  {
    hide CopiedUpTo, First, Second, SectorAt;
    mismatches := 0;
    NothingCopied(g, disk.sectors[..]);
    if g.numFats < 2 {
      return;
    }
    ghost var img := disk.sectors[..];
    var s := 0;
    while s < g.fatSize
      invariant 0 <= s <= g.fatSize && mismatches == Differing(g, img, s)
      invariant CopiedUpTo(g, img, s, disk.sectors[..])
      invariant old(disk.trace) <= disk.trace && |disk.trace| == |old(disk.trace)| + mismatches
      invariant mismatches == 0 ==> disk.sectors[..] == img
    {
      CopyStep(g, img, s, disk.sectors[..]);
      var fat1 := disk.Read(g.fatLba + s);
      var fat2 := disk.Read(g.fatLba + g.fatSize + s);
      if fat1 != fat2 {
        mismatches := mismatches + 1;
        disk.Write(g.fatLba + g.fatSize + s, fat1);
      }
      s := s + 1;
    }
  }

  lemma NothingCopied(g: Geometry, img: Image)
    ensures CopiedUpTo(g, img, 0, img)
  {
  }

  /** One round of the copy. */
  lemma CopyStep(g: Geometry, img: Image, s: nat, cur: Image)
    requires g.Valid() && g.numFats >= 2 && s < g.fatSize && g.Sectors() <= |img| && CopiedUpTo(g, img, s, cur)
    ensures g.fatLba + g.fatSize + s < |cur|
    ensures cur[g.fatLba + s] == First(g, img, s) && cur[g.fatLba + g.fatSize + s] == Second(g, img, s)
    ensures CopiedUpTo(g, img, s + 1, cur[g.fatLba + g.fatSize + s := First(g, img, s)])
    ensures First(g, img, s) == Second(g, img, s) ==> CopiedUpTo(g, img, s + 1, cur)
  {
    CopyBounds(g, 1, s);
    TimesOne(g.fatSize);
    var cur' := cur[g.fatLba + g.fatSize + s := First(g, img, s)];
    forall t: nat | t <= s
      ensures t < s ==> Second(g, cur', t) == First(g, img, t) && Second(g, cur, t) == First(g, img, t)
    {
      var _ := Second(g, cur, t);
    }
  }

  lemma TimesOne(n: nat)
    ensures Mul(1, n) == n && Mul(0, n) == 0
  {
  }

  /** Nothing is counted exactly if the tables agree. */
  lemma {:induction false} NoneDiffering(g: Geometry, img: Image, n: nat)
    ensures Differing(g, img, n) == 0 <==>
              forall s {:trigger Second(g, img, s)} :: 0 <= s < n ==> First(g, img, s) == Second(g, img, s)
  {
    hide First, Second;
    if n > 0 {
      NoneDiffering(g, img, n - 1);
      if Differing(g, img, n) != 0 && Differing(g, img, n - 1) == 0 {
        var _ := Second(g, img, n - 1);
      }
    }
  }

  /** Mirrored tables differ nowhere. */
  lemma MirroredDiffersNowhere(g: Geometry, img: Image)
    requires g.Valid() && g.numFats >= 2 && Mirrored(g, img)
    ensures Differing(g, img, g.fatSize) == 0
  {
    TimesOne(g.fatSize);
    forall s: nat {:trigger Second(g, img, s)} | s < g.fatSize
      ensures First(g, img, s) == Second(g, img, s)
    {
      assert FatSector(g, img, 1, s) == SectorAt(img, g.fatLba + s);
    }
    NoneDiffering(g, img, g.fatSize);
  }
}

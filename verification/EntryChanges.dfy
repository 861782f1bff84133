/** What changing one directory entry does to a consistent volume. */
module EntryChanges {
  import opened Bytes
  import opened Layout
  import opened Chains
  import opened Volumes
  import opened Names
  import opened LongNames
  import opened ChainData
  import opened Cells
  import opened Directories
  import opened DirAdd
  import opened Catalogs
  import opened Files

  /** Another first cluster and size in a short entry; the other bytes stay. */
  function Update83(e: Entry, clus: nat, size: nat): Entry
    requires clus < U32 && size < U32
  {
    e[..20] + Le16(clus / 0x1_0000) + e[22..26] + Le16(clus % 0x1_0000) + Le32(size)
  }

  lemma Update83Matches(e: Entry, cell: Cell, clus: nat, size: nat)
    requires cell.Entry83? && Matches(e, cell) && clus < U32 && size < U32
    ensures Matches(Update83(e, clus, size), cell.(clus := clus, size := size))
    ensures forall i | 0 <= i < 20 || 22 <= i < 26 :: Update83(e, clus, size)[i] == e[i]
  {
    var e' := Update83(e, clus, size);
    Le16RoundTrip(clus / 0x1_0000);
    Le16RoundTrip(clus % 0x1_0000);
    Le32RoundTrip(size);
    assert e'[..11] == e[..11] && e'[11] == e[11];
    assert e'[20..22] == Le16(clus / 0x1_0000) && e'[26..28] == Le16(clus % 0x1_0000) && e'[28..32] == Le32(size);
  }

  function Retargeted(cells: seq<Cell>, k: nat, clus: nat, size: nat): (r: seq<Cell>)
    requires k < |cells| && cells[k].Entry83?
    ensures |r| == |cells|
  {
    cells[k := cells[k].(clus := clus, size := size)]
  }

  lemma RetargetedFine(cells: seq<Cell>, k: nat, clus: nat, size: nat)
    requires k < |cells| && cells[k].Entry83? && WellRun(cells) && NamesDistinct(cells)
    ensures WellRun(Retargeted(cells, k, clus, size)) && NamesDistinct(Retargeted(cells, k, clus, size))
    ensures Listing(Retargeted(cells, k, clus, size)) ==
              Listing(cells)[Fold(cells[k].name) := cells[k].(clus := clus, size := size)]
  {
    var r := Retargeted(cells, k, clus, size);
    forall i | 0 <= i < |r|
      ensures WellPlaced(r, i)
    {
      assert WellPlaced(cells, i);
    }
    assert NamesDistinct(r) by {
      forall i, j {:trigger r[i], r[j]} | 0 <= i < j < |r| && r[i].Entry83? && r[j].Entry83?
        ensures Fold(r[i].name) != Fold(r[j].name)
      {
        assert r[i].name == cells[i].name && r[j].name == cells[j].name;
      }
    }
    ListingPut(cells, r, k);
  }

  /** The stored entry after one update of a short entry. */
  lemma UpdatedDir(g: Geometry, v: View, ch: seq<nat>, cells: seq<Cell>, k: nat, clus: nat, size: nat)
    requires g.Valid() && Fits(g, v) && IsChain(g, v.fat, ch) && AllMatch(Dir(v.data, ch), cells)
    requires k < |cells| && cells[k].Entry83? && clus < U32 && size < U32
    ensures k < |Dir(v.data, ch)| && k < PER_SECTOR * Mul(|ch|, g.secPerClus)
    ensures DirState(g, v, ch, Retargeted(cells, k, clus, size),
                     StoredEntry(g, v, ch, k, Update83(Dir(v.data, ch)[k], clus, size)))
  {
    hide Mul, Matches, Dir, StoredEntry, Update83, IsChain;
    ChainCovered(g, v, ch);
    var e := Dir(v.data, ch)[k];
    assert Matches(e, cells[k]);
    Update83Matches(e, cells[k], clus, size);
    StoredEntryEffect(g, v, ch, k, Update83(e, clus, size));
    AllMatchUpdate(Dir(v.data, ch), cells, k, Update83(e, clus, size), cells[k].(clus := clus, size := size));
  }

  /** The chain belongs to a short entry. */
  predicate Owned(cat: Catalog, h: nat) {
    h in cat.owner && var r := cat.owner[h];
    r.dir in cat.dirs && r.idx < |cat.dirs[r.dir]| && cat.dirs[r.dir][r.idx].Entry83?
  }

  /** Another size in the entry of a file. */
  function Resized(cat: Catalog, h: nat, n: nat): Catalog {
    if Owned(cat, h) then
      var r := cat.owner[h];
      WithCells(cat, r.dir, Retargeted(cat.dirs[r.dir], r.idx, cat.dirs[r.dir][r.idx].clus, n))
    else cat
  }

  /** Recording a file's size, at most what its chain holds. */
  lemma ResizedSound(g: Geometry, v: View, cat: Catalog, h: nat, n: nat, w: View)
    requires g.Valid() && Consistent(g, v, cat) && Owned(cat, h) && h !in cat.dirs && h in cat.chains
    requires n < U32 && n <= Capacity(g, |cat.chains[h]|)
    requires DirState(g, v, cat.chains[cat.owner[h].dir], Resized(cat, h, n).dirs[cat.owner[h].dir], w)
    ensures Consistent(g, w, Resized(cat, h, n))
    ensures Evolves(cat, Resized(cat, h, n), {}, {h})
  {
    hide Homed, Linked, InUse, AllMatch, Dir, WellRun, NamesDistinct, Fold, Listing, EntriesOwn, OwnersAreEntries, Evolves;
    var r, cat' := cat.owner[h], Resized(cat, h, n);
    var cells := cat.dirs[r.dir];
    assert cat'.dirs == cat.dirs[r.dir := cat'.dirs[r.dir]];
    DirsRewrite(g, v, cat, r.dir, cat'.dirs[r.dir], w);
    RetargetedFine(cells, r.idx, cells[r.idx].clus, n);
    OwnerDir(g, cat, {}, {}, h);
    ResizedTree(g, cat, h, n);
  }

  lemma ResizedTree(g: Geometry, cat: Catalog, h: nat, n: nat)
    requires TreeOk(g, cat, {}, {}) && Owned(cat, h) && h !in cat.dirs && h in cat.chains
    requires n <= Capacity(g, |cat.chains[h]|)
    ensures TreeOk(g, Resized(cat, h, n), {}, {})
    ensures Evolves(cat, Resized(cat, h, n), {}, {h})
  {
    hide Capacity;
    ResizedEntries(g, cat, h, n);
    ResizedOwners(cat, h, n);
    ResizedEvolves(g, cat, h, n);
    hide Evolves, OwnersAreEntries, EntriesOwn;
  }

  lemma ResizedEvolves(g: Geometry, cat: Catalog, h: nat, n: nat)
    requires TreeOk(g, cat, {}, {}) && Owned(cat, h) && h !in cat.dirs && h in cat.chains
    requires n <= Capacity(g, |cat.chains[h]|)
    ensures Evolves(cat, Resized(cat, h, n), {}, {h})
  {
    hide Capacity, EntriesOwn, OwnersAreEntries;
    var cat' := Resized(cat, h, n);
    forall k {:trigger cat.owner[k]} | k in cat.owner && k != h
      ensures CommittedSize(cat', cat.owner[k]) == CommittedSize(cat, cat.owner[k])
    {
      OwnersDiffer(g, cat, k, h);
    }
  }

  lemma ResizedEntries(g: Geometry, cat: Catalog, h: nat, n: nat)
    requires EntriesOwn(g, cat, {}) && Owned(cat, h) && h !in cat.dirs && h in cat.chains
    requires cat.dirs[cat.owner[h].dir][cat.owner[h].idx].clus == h && n <= Capacity(g, |cat.chains[h]|)
    ensures EntriesOwn(g, Resized(cat, h, n), {})
  {
    var r, cat' := cat.owner[h], Resized(cat, h, n);
    forall d, i {:trigger cat'.dirs[d][i]} | d in cat'.dirs && 0 <= i < |cat'.dirs[d]|
      ensures cat'.dirs[d][i].Entry83? ==> RefOk(g, cat', d, i)
      ensures cat'.dirs[d][i].Dot? ==> cat'.dirs[d][i].clus == 0 || g.IsCluster(cat'.dirs[d][i].clus)
    {
      var _ := cat.dirs[d][i];
    }
  }

  lemma ResizedOwners(cat: Catalog, h: nat, n: nat)
    requires OwnersAreEntries(cat.dirs, cat.owner, {}) && Owned(cat, h)
    ensures OwnersAreEntries(Resized(cat, h, n).dirs, cat.owner, {})
  {
  }

  lemma OwnersDiffer(g: Geometry, cat: Catalog, k: nat, h: nat)
    requires TreeOk(g, cat, {}, {}) && k in cat.owner && h in cat.owner && k != h
    ensures cat.owner[k] != cat.owner[h]
  {
    OwnerDir(g, cat, {}, {}, k);
    OwnerDir(g, cat, {}, {}, h);
  }

  /** Files read the same when no cluster in use changed but those of one directory. */
  lemma FilesElsewhere(g: Geometry, v: View, cat: Catalog, d: nat, w: View, cat': Catalog, h: nat)
    requires Fits(g, v) && Homed(g, cat.chains, cat.place) && d in cat.chains && h in cat.chains && h != d
    requires |w.data| == |v.data|
    requires forall x {:trigger w.data[x]} :: x in cat.place && x < |v.data| && x !in cat.chains[d] ==> w.data[x] == v.data[x]
    requires h in cat'.chains && cat'.chains[h] == cat.chains[h]
    ensures Content(w, cat', h) == Content(v, cat, h)
  {
    forall i {:trigger cat.chains[h][i]} | 0 <= i < |cat.chains[h]|
      ensures cat.chains[h][i] < |v.data| && v.data[cat.chains[h][i]] == w.data[cat.chains[h][i]]
    {
      PlaceOf(g, cat.chains, cat.place, h, i);
      NotShared(g, cat.chains, cat.place, d, h, i);
    }
    ChainFrame(v.data, w.data, cat.chains[h]);
  }

  /** Recording a larger size loses nothing recorded. */
  lemma ResizedKeeps(g: Geometry, v: View, cat: Catalog, h: nat, n: nat, w: View)
    requires g.Valid() && Consistent(g, v, cat) && Owned(cat, h) && h !in cat.dirs && h in cat.chains
    requires CommittedSize(cat, cat.owner[h]) <= n
    requires DirState(g, v, cat.chains[cat.owner[h].dir], Resized(cat, h, n).dirs[cat.owner[h].dir], w)
    ensures Keeps(v, cat, w, Resized(cat, h, n))
    ensures forall k | k in cat.chains && k !in cat.dirs :: Content(w, Resized(cat, h, n), k) == Content(v, cat, k)
  {
    hide Linked, InUse, AllMatch, Dir, WellRun, NamesDistinct, Content, Homed;
    var r, cat' := cat.owner[h], Resized(cat, h, n);
    OwnerDir(g, cat, {}, {}, h);
    forall k | k in cat.chains && k !in cat.dirs
      ensures Content(w, cat', k) == Content(v, cat, k)
    {
      FilesElsewhere(g, v, cat, r.dir, w, cat', k);
    }
    hide DirState, DirsOk, Fits, OwnersAreEntries, Shape, CommittedSize;
    forall d, i {:trigger cat.dirs[d][i]} | d in cat.dirs && 0 <= i < |cat.dirs[d]| && cat.dirs[d][i].Entry83?
      ensures KeptAt(v, cat, w, cat', d, i)
    {
      ResizedEntry(cat, h, n, d, i);
      assert RefOk(g, cat, d, i);
    }
  }

  lemma ResizedEntry(cat: Catalog, h: nat, n: nat, d: nat, i: nat)
    requires Owned(cat, h) && d in cat.dirs && i < |cat.dirs[d]| && cat.dirs[d][i].Entry83?
    requires CommittedSize(cat, cat.owner[h]) <= n
    ensures var cat' := Resized(cat, h, n);
      && d in cat'.dirs && i < |cat'.dirs[d]| && cat'.dirs[d][i].Entry83?
      && cat'.dirs[d][i] == cat.dirs[d][i].(size := cat'.dirs[d][i].size) && cat.dirs[d][i].size <= cat'.dirs[d][i].size
  {
  }

  /** Where a write descriptor's entry is. */
  lemma WriterEntry(g: Geometry, v: View, cat: Catalog, f: FileDesc)
    requires g.Valid() && Consistent(g, v, cat) && WriterOk(g, cat, f)
    ensures TreeOk(g, cat, {}, {}) && Fits(g, v)
    ensures f.cluster in cat.owner && Owned(cat, f.cluster) && f.cluster !in cat.dirs && f.cluster in cat.chains
    ensures CommittedSize(cat, cat.owner[f.cluster]) <= f.size < U32 && f.size <= Capacity(g, |cat.chains[f.cluster]|)
    ensures f.cluster < U32
    ensures cat.owner[f.cluster].dir in cat.chains
    ensures IsChain(g, v.fat, cat.chains[cat.owner[f.cluster].dir])
    ensures AtSector(g, cat.chains[cat.owner[f.cluster].dir], cat.owner[f.cluster].idx, f.dirLba, f.dirOffset)
  {
    hide Mul, Quot, Rem, At, AtSector, Homed, Linked, InUse, DirsOk, EntriesOwn, IsChain, Capacity;
    OwnerDir(g, cat, {}, {}, f.cluster);
    ChainOf(g, v.fat, cat, f.cluster);
    ChainOf(g, v.fat, cat, cat.owner[f.cluster].dir);
  }

  lemma EntryPlace(g: Geometry, ch: seq<nat>, k: nat, lba: nat, off: nat) returns (pos: DirPos)
    requires g.secPerClus > 0 && AtSector(g, ch, k, lba, off)
    ensures At(g, ch, k, pos) && pos.lba == lba && pos.off == off
  {
    pos := DirPos(ch[Quot(k / PER_SECTOR, g.secPerClus)], lba, off);
  }

  /** Changing the bytes of an entry in its sector is storing the entry. */
  lemma PatchedEntry(g: Geometry, v: View, ch: seq<nat>, k: nat, pos: DirPos, e: Entry)
    requires g.Valid() && Fits(g, v) && IsChain(g, v.fat, ch) && At(g, ch, k, pos)
    ensures k < PER_SECTOR * Mul(|ch|, g.secPerClus)
    ensures v.Patch(pos.cluster, Rem(k / PER_SECTOR, g.secPerClus), pos.off, e) == StoredEntry(g, v, ch, k, e)
  {
    hide Mul, Quot, Rem;
    IndexBound(g, |ch|, k);
  }

  /** Everything about the write that records a file's size. */
  lemma SizeRecorded(g: Geometry, v: View, cat: Catalog, h: nat, n: nat, w: View)
    requires g.Valid() && Consistent(g, v, cat) && Owned(cat, h) && h !in cat.dirs && h in cat.chains
    requires CommittedSize(cat, cat.owner[h]) <= n <= Capacity(g, |cat.chains[h]|) && n < U32 && h < U32
    requires var r := cat.owner[h];
      && r.dir in cat.chains && IsChain(g, v.fat, cat.chains[r.dir])
      && r.idx < PER_SECTOR * Mul(|cat.chains[r.dir]|, g.secPerClus)
      && r.idx < |Dir(v.data, cat.chains[r.dir])|
      && w == StoredEntry(g, v, cat.chains[r.dir], r.idx, Update83(Dir(v.data, cat.chains[r.dir])[r.idx], h, n))
    ensures Consistent(g, w, Resized(cat, h, n))
    ensures Evolves(cat, Resized(cat, h, n), {}, {h})
    ensures CrashSafe(g, v, cat, w)
    ensures forall k | k in Resized(cat, h, n).chains && k !in Resized(cat, h, n).dirs ::
              Content(w, Resized(cat, h, n), k) == Content(v, cat, k)
  {
    hide Mul, Quot, Rem, AllMatch, Dir, StoredEntry, Update83, Evolves, Keeps, Content, Capacity, WellRun, NamesDistinct;
    hide IsChain, Homed, Linked, InUse, EntriesOwn;
    var r := cat.owner[h];
    OwnerDir(g, cat, {}, {}, h);
    UpdatedDir(g, v, cat.chains[r.dir], cat.dirs[r.dir], r.idx, h, n);
    ResizedSound(g, v, cat, h, n, w);
    ResizedKeeps(g, v, cat, h, n, w);
  }
}

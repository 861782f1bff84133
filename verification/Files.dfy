/** File descriptors and what they mean on a consistent volume. */
module Files {
  import opened Bytes
  import opened Layout
  import opened Chains
  import opened Volumes
  import opened ChainData
  import opened Cells
  import opened Directories
  import opened Catalogs

  datatype FileDesc = FileDesc(
    open: bool, write: bool, cluster: nat, dirCluster: nat, dirLba: nat, dirOffset: nat, size: nat, pos: nat, cur: nat)

  const CLOSED := FileDesc(false, false, 0, 0, 0, 0, 0, 0, 0)

  /** The bytes a chain holds. */
  ghost function Content(v: View, cat: Catalog, h: nat): seq<Byte> {
    if h in cat.chains then FlatBytes(ChainSectors(v.data, cat.chains[h])) else []
  }

  /** The number of bytes in a chain of `n` clusters. */
  function Capacity(g: Geometry, n: nat): nat {
    SECTOR_SIZE * Mul(n, g.secPerClus)
  }

  /** The size a directory entry records. */
  ghost function CommittedSize(cat: Catalog, r: Ref): nat {
    if r.dir in cat.dirs && r.idx < |cat.dirs[r.dir]| && cat.dirs[r.dir][r.idx].Entry83? then
      cat.dirs[r.dir][r.idx].size
    else 0
  }

  /** A write descriptor stands at the end of its file, in the last cluster of the file's chain; the chain has no more
      clusters than the file needs, and at least one. */
  ghost predicate WriterOk(g: Geometry, cat: Catalog, f: FileDesc)
    requires g.secPerClus > 0
  {
    && f.cluster in cat.owner && f.cluster !in cat.dirs && f.cluster in cat.chains
    && var ch, r := cat.chains[f.cluster], cat.owner[f.cluster];
    && |ch| > 0 && f.cur == ch[|ch| - 1]
    && f.pos == f.size < U32
    && f.size <= Capacity(g, |ch|)
    && (if f.size == 0 then |ch| == 1 else Capacity(g, |ch| - 1) < f.size)
    && r.dir in cat.chains && AtSector(g, cat.chains[r.dir], r.idx, f.dirLba, f.dirOffset)
    && CommittedSize(cat, r) <= f.size
  }

  /** Where a descriptor remembers its entry to be. */
  ghost predicate AtSector(g: Geometry, ch: seq<nat>, k: nat, lba: nat, off: nat)
    requires g.secPerClus > 0
  {
    var q := Quot(k / PER_SECTOR, g.secPerClus);
    q < |ch| && At(g, ch, k, DirPos(ch[q], lba, off))
  }

  /** A read descriptor with bytes left stands in the cluster that holds the next one. */
  ghost predicate ReaderOk(g: Geometry, cat: Catalog, f: FileDesc)
    requires g.secPerClus > 0
  {
    && f.cluster in cat.owner && f.cluster !in cat.dirs && f.cluster in cat.chains
    && var ch := cat.chains[f.cluster];
    && f.pos <= f.size < U32 && f.size <= Capacity(g, |ch|)
    && (f.pos < f.size ==>
          Quot(f.pos / SECTOR_SIZE, g.secPerClus) < |ch| && f.cur == ch[Quot(f.pos / SECTOR_SIZE, g.secPerClus)])
  }

  ghost predicate DescOk(g: Geometry, cat: Catalog, f: FileDesc)
    requires g.secPerClus > 0
  {
    f.open ==> if f.write then WriterOk(g, cat, f) else ReaderOk(g, cat, f)
  }

  /** All descriptors are in order, and no file has two writers. */
  ghost predicate DescsOk(g: Geometry, cat: Catalog, fds: seq<FileDesc>)
    requires g.secPerClus > 0
  {
    && (forall i {:trigger fds[i]} :: 0 <= i < |fds| ==> DescOk(g, cat, fds[i]))
    && (forall i, j {:trigger fds[i], fds[j]} :: 0 <= i < j < |fds| && IsWriter(fds[i]) && IsWriter(fds[j]) ==>
          fds[i].cluster != fds[j].cluster)
  }

  predicate IsWriter(f: FileDesc) {
    f.open && f.write
  }

  /** The file is not open. */
  ghost predicate NotOpen(fds: seq<FileDesc>, h: nat) {
    forall i {:trigger fds[i]} :: 0 <= i < |fds| && fds[i].open ==> fds[i].cluster != h
  }

  /** Files other than `gone` keep their owner and lose no cluster, directories lose no cluster, and files other than
      `grown` have the same chain and the same recorded size. */
  ghost predicate Evolves(cat: Catalog, cat': Catalog, gone: set<nat>, grown: set<nat>) {
    && (forall h {:trigger cat.owner[h]} :: h in cat.owner && h in cat.chains && h !in cat.dirs && h !in gone ==>
          && h in cat'.owner && cat'.owner[h] == cat.owner[h] && h !in cat'.dirs
          && h in cat'.chains && cat.chains[h] <= cat'.chains[h]
          && (h !in grown ==>
                cat'.chains[h] == cat.chains[h] && CommittedSize(cat', cat.owner[h]) == CommittedSize(cat, cat.owner[h])))
    && (forall d {:trigger cat.chains[d]} :: d in cat.dirs && d in cat.chains ==>
          d in cat'.dirs && d in cat'.chains && cat.chains[d] <= cat'.chains[d])
  }

  lemma DescStays(g: Geometry, cat: Catalog, cat': Catalog, gone: set<nat>, grown: set<nat>, f: FileDesc)
    requires g.secPerClus > 0 && DescOk(g, cat, f) && Evolves(cat, cat', gone, grown)
    requires f.open ==> f.cluster !in gone && (f.write ==> f.cluster !in grown)
    requires OwnersAreEntries(cat.dirs, cat.owner, {})
    ensures DescOk(g, cat', f)
  {
    hide Mul, Quot, Rem;
    if f.open {
      var r := cat.owner[f.cluster];
      MulMono(|cat.chains[f.cluster]|, |cat'.chains[f.cluster]|, g.secPerClus);
    }
  }

  lemma MulMono(a: nat, b: nat, n: nat)
    requires a <= b
    ensures Mul(a, n) <= Mul(b, n)
    decreases b - a
  {
    if a < b {
      MulMono(a, b - 1, n);
    }
  }

  /** A byte position, its sector and the place of the sector in the chain. */
  lemma PositionSplit(g: Geometry, pos: nat)
    requires g.secPerClus > 0
    ensures g.secPerClus * SECTOR_SIZE > 0
    ensures Rem(pos, g.secPerClus * SECTOR_SIZE) ==
              Rem(pos / SECTOR_SIZE, g.secPerClus) * SECTOR_SIZE + pos % SECTOR_SIZE
    ensures Rem(pos / SECTOR_SIZE, g.secPerClus) < g.secPerClus
    ensures Capacity(g, Quot(pos / SECTOR_SIZE, g.secPerClus)) + Rem(pos, g.secPerClus * SECTOR_SIZE) == pos
  {
    var cs, m := g.secPerClus * SECTOR_SIZE, pos / SECTOR_SIZE;
    var q, s := Quot(m, g.secPerClus), Rem(m, g.secPerClus);
    QuotRem(g.secPerClus, m);
    var into := s * SECTOR_SIZE + pos % SECTOR_SIZE;
    assert into < cs;
    MulScale(q, g.secPerClus, SECTOR_SIZE);
    assert pos == Mul(q, cs) + into;
    QuotRemUnique(cs, q, into);
  }

  lemma {:induction false} MulScale(a: nat, n: nat, k: nat)
    ensures Mul(a, n * k) == k * Mul(a, n)
  {
    if a > 0 {
      MulScale(a - 1, n, k);
      assert k * (Mul(a - 1, n) + n) == k * Mul(a - 1, n) + k * n;
    }
  }

  /** Which cluster a position lies in, by capacity. */
  lemma InCluster(g: Geometry, pos: nat, q: nat)
    requires g.secPerClus > 0 && Capacity(g, q) <= pos < Capacity(g, q + 1)
    ensures Quot(pos / SECTOR_SIZE, g.secPerClus) == q
  {
    var m := pos / SECTOR_SIZE;
    var r := m - Mul(q, g.secPerClus);
    assert 0 <= r < g.secPerClus;
    QuotRemUnique(g.secPerClus, q, r);
  }

  /** A writer about to write stands in the last cluster of its chain. */
  ghost predicate WriterReady(g: Geometry, cat: Catalog, f: FileDesc)
    requires g.secPerClus > 0
  {
    && f.cluster in cat.owner && f.cluster !in cat.dirs && f.cluster in cat.chains
    && var ch, r := cat.chains[f.cluster], cat.owner[f.cluster];
    && |ch| > 0 && f.cur == ch[|ch| - 1]
    && f.pos == f.size < U32
    && Capacity(g, |ch| - 1) <= f.size < Capacity(g, |ch|)
    && r.dir in cat.chains && AtSector(g, cat.chains[r.dir], r.idx, f.dirLba, f.dirOffset)
    && CommittedSize(cat, r) <= f.size
  }

  /** A writer has to go on to a new cluster exactly when it has filled the last one. */
  lemma WriterCases(g: Geometry, cat: Catalog, f: FileDesc)
    requires g.secPerClus > 0 && WriterOk(g, cat, f)
    ensures var clusOff := Rem(f.pos, g.secPerClus * SECTOR_SIZE);
      if clusOff == 0 && f.pos > 0 then f.pos == Capacity(g, |cat.chains[f.cluster]|) else WriterReady(g, cat, f)
  {
    hide Mul, Quot, Rem;
    var n, q := |cat.chains[f.cluster]|, Quot(f.pos / SECTOR_SIZE, g.secPerClus);
    PositionSplit(g, f.pos);
    assert Mul(n, g.secPerClus) == Mul(n - 1, g.secPerClus) + g.secPerClus && Mul(0, g.secPerClus) == 0 by {
      MulUp(n - 1, g.secPerClus);
    }
    MulUp(q, g.secPerClus);
    if f.pos > 0 {
      MulOrder(q, n, g.secPerClus);
      MulOrder(n - 1, q, g.secPerClus);
      MulOrder(q + 1, n - 1, g.secPerClus);
    }
  }

  lemma MulUp(a: nat, n: nat)
    ensures Mul(a + 1, n) == Mul(a, n) + n && Mul(0, n) == 0
  {
  }

  lemma MulOrder(a: nat, b: nat, n: nat)
    requires n > 0
    ensures Mul(a, n) <= Mul(b, n) <==> a <= b
  {
    Digits(n, a, 0, b, 0);
  }

  /** Where a writer writes next. */
  lemma WriterSector(g: Geometry, v: View, cat: Catalog, f: FileDesc)
    requires g.Valid() && Sound(g, v, cat, {}, {}) && WriterReady(g, cat, f)
    ensures var ch, m := cat.chains[f.cluster], f.pos / SECTOR_SIZE;
      var s := Rem(m, g.secPerClus);
      && Rem(f.pos, g.secPerClus * SECTOR_SIZE) == s * SECTOR_SIZE + f.pos % SECTOR_SIZE
      && g.IsCluster(f.cur) && s < g.secPerClus && m == Mul(|ch| - 1, g.secPerClus) + s
      && m < |ChainSectors(v.data, ch)| && ChainSectors(v.data, ch)[m] == v.data[f.cur][s]
      && |FlatBytes(ChainSectors(v.data, ch))| == Capacity(g, |ch|)
  {
    hide Mul, Quot, Rem, ChainSectors, TreeOk, DirsOk, Homed, Linked, InUse, Distinct;
    var ch, m := cat.chains[f.cluster], f.pos / SECTOR_SIZE;
    PositionSplit(g, f.pos);
    InCluster(g, f.pos, |ch| - 1);
    QuotRem(g.secPerClus, m);
    ChainOf(g, v.fat, cat, f.cluster);
    ChainCovered(g, v, ch);
    ChainSectorAt(g.secPerClus, v.data, ch, |ch| - 1, Rem(m, g.secPerClus));
  }

  /** The view after the bytes went to the writer's place, and the file's bytes then. */
  lemma WriterPut(g: Geometry, v: View, cat: Catalog, f: FileDesc, bytes: seq<Byte>, w: View)
    requires g.Valid() && Sound(g, v, cat, {}, {}) && WriterReady(g, cat, f)
    requires 0 < |bytes| && f.pos % SECTOR_SIZE + |bytes| <= SECTOR_SIZE
    requires w == v.Patch(f.cur, Rem(f.pos / SECTOR_SIZE, g.secPerClus), f.pos % SECTOR_SIZE, bytes)
    ensures Sound(g, w, cat, {}, {})
    ensures f.pos + |bytes| <= |Content(v, cat, f.cluster)|
    ensures Content(w, cat, f.cluster) == Splice(Content(v, cat, f.cluster), f.pos, bytes)
    ensures forall h | h in cat.chains && h != f.cluster :: Content(w, cat, h) == Content(v, cat, h)
  {
    hide Mul, Quot, Rem, ChainSectors, TreeOk, DirsOk, InUse, Linked, Homed, FlatBytes;
    var ch, m := cat.chains[f.cluster], f.pos / SECTOR_SIZE;
    var s := Rem(m, g.secPerClus);
    WriterSector(g, v, cat, f);
    ChainOf(g, v.fat, cat, f.cluster);
    ChainCovered(g, v, ch);
    var sector: Sector := Splice(v.data[f.cur][s], f.pos % SECTOR_SIZE, bytes);
    ChainUpdate(g.secPerClus, v, ch, |ch| - 1, s, sector);
    FlatUpdate(ChainSectors(v.data, ch), m, f.pos % SECTOR_SIZE, bytes);
    PlaceOf(g, cat.chains, cat.place, f.cluster, |ch| - 1);
    PutFits(g, v, f.cur, s, sector);
    SoundTouch(g, v, cat, {}, {}, w);
    forall h | h in cat.chains && h != f.cluster
      ensures Content(w, cat, h) == Content(v, cat, h)
    {
      ContentElsewhere(g, v, cat, h, f.cur, w);
    }
  }

  lemma PutFits(g: Geometry, v: View, c: nat, s: nat, sector: Sector)
    requires Fits(g, v)
    ensures Fits(g, v.PutSector(c, s, sector))
  {
  }

  /** A chain's bytes do not depend on a cluster placed elsewhere. */
  lemma ContentElsewhere(g: Geometry, v: View, cat: Catalog, h: nat, c: nat, w: View)
    requires Homed(g, cat.chains, cat.place) && Fits(g, v) && h in cat.chains
    requires c !in cat.place || cat.place[c].head != h
    requires |w.data| == |v.data| && forall x | 0 <= x < |v.data| && x != c :: w.data[x] == v.data[x]
    ensures Content(w, cat, h) == Content(v, cat, h)
  {
    forall i {:trigger cat.chains[h][i]} | 0 <= i < |cat.chains[h]|
      ensures cat.chains[h][i] < |v.data| && v.data[cat.chains[h][i]] == w.data[cat.chains[h][i]]
    {
      PlaceOf(g, cat.chains, cat.place, h, i);
    }
    ChainFrame(v.data, w.data, cat.chains[h]);
  }

  /** The file of entry `i` of directory `d` is still there, under the same name, with the bytes it was recorded to have. */
  ghost predicate KeptAt(v0: View, cat0: Catalog, v: View, cat: Catalog, d: nat, i: nat)
    requires d in cat0.dirs && i < |cat0.dirs[d]| && cat0.dirs[d][i].Entry83?
  {
    && d in cat.dirs && i < |cat.dirs[d]| && cat.dirs[d][i].Entry83?
    && var e, e' := cat0.dirs[d][i], cat.dirs[d][i];
    && e' == e.(size := e'.size)
    && (e.attr != ATTR_DIR && e.size <= |Content(v0, cat0, e.clus)| ==>
          && e.size <= e'.size && e.size <= |Content(v, cat, e.clus)|
          && Content(v, cat, e.clus)[..e.size] == Content(v0, cat0, e.clus)[..e.size])
  }

  /** Every file of `cat0` is still there, under the same name, with the bytes it was recorded to have. */
  ghost predicate Keeps(v0: View, cat0: Catalog, v: View, cat: Catalog) {
    forall d, i {:trigger cat0.dirs[d][i]} :: d in cat0.dirs && 0 <= i < |cat0.dirs[d]| && cat0.dirs[d][i].Entry83? ==>
      KeptAt(v0, cat0, v, cat, d, i)
  }

  /** Entry `i` of directory `d` is not a short entry any more, or it is that of the same file with nothing in it. */
  ghost predicate GoneAt(cat0: Catalog, cat: Catalog, d: nat, i: nat)
    requires d in cat0.dirs && i < |cat0.dirs[d]| && cat0.dirs[d][i].Entry83?
  {
    d in cat.dirs && i < |cat.dirs[d]| && cat.dirs[d][i].Entry83? ==>
      cat.dirs[d][i] == cat0.dirs[d][i].(clus := cat.dirs[d][i].clus, size := 0)
  }

  /** Every file of `cat0` is still there with the bytes it was recorded to have; only that of the entry `r` may be gone or
      emptied. */
  ghost predicate KeepsBut(v0: View, cat0: Catalog, v: View, cat: Catalog, r: Ref) {
    forall d, i {:trigger cat0.dirs[d][i]} :: d in cat0.dirs && 0 <= i < |cat0.dirs[d]| && cat0.dirs[d][i].Entry83? ==>
      KeptAt(v0, cat0, v, cat, d, i) || (r == Ref(d, i) && GoneAt(cat0, cat, d, i))
  }

  /** What a power cut may leave while the file of the entry `r` is being removed or emptied: a sound volume, at worst with
      clusters that nothing refers to, on which that file is as it was, gone or empty, and nothing else is lost. */
  ghost predicate CrashSafeBut(g: Geometry, v0: View, cat0: Catalog, v: View, r: Ref) {
    exists cat, pend {:trigger Sound(g, v, cat, pend, {})} :: Sound(g, v, cat, pend, {}) && KeepsBut(v0, cat0, v, cat, r)
  }

  lemma KeepsAllBut(v0: View, cat0: Catalog, v: View, cat: Catalog, r: Ref)
    requires Keeps(v0, cat0, v, cat)
    ensures KeepsBut(v0, cat0, v, cat, r)
  {
    hide KeptAt, GoneAt;
  }

  /** It asks for less than safety when no file is to go. */
  lemma SafeIsSafeBut(g: Geometry, v0: View, cat0: Catalog, v: View, r: Ref)
    requires CrashSafe(g, v0, cat0, v)
    ensures CrashSafeBut(g, v0, cat0, v, r)
  {
    hide Sound, KeptAt, GoneAt;
    var cat, pend :| Sound(g, v, cat, pend, {}) && Keeps(v0, cat0, v, cat);
    KeepsAllBut(v0, cat0, v, cat, r);
  }

  /** The chains that nothing refers to are at most one cluster. */
  ghost predicate OneStray(cat: Catalog, pend: set<nat>) {
    |pend| <= 1 && forall h {:trigger cat.chains[h]} :: h in pend && h in cat.chains ==> cat.chains[h] == [h]
  }

  /** What a power cut may leave: a sound volume with at most one stray cluster, on which nothing recorded is lost. */
  ghost predicate CrashSafe(g: Geometry, v0: View, cat0: Catalog, v: View) {
    exists cat, pend {:trigger Sound(g, v, cat, pend, {})} ::
      && Sound(g, v, cat, pend, {})
      && OneStray(cat, pend) && Keeps(v0, cat0, v, cat)
  }

  /** Every write from history `h0` to history `h1` left the disk in a safe state. */
  ghost predicate AllSafe(g: Geometry, v0: View, cat0: Catalog, h0: seq<View>, h1: seq<View>) {
    forall i {:trigger h1[i]} :: |h0| <= i < |h1| ==> CrashSafe(g, v0, cat0, h1[i])
  }

  lemma AllSafeParts(g: Geometry, v0: View, cat0: Catalog, h0: seq<View>, h1: seq<View>, h2: seq<View>)
    requires h0 <= h1 <= h2
    ensures AllSafe(g, v0, cat0, h0, h2) <==> AllSafe(g, v0, cat0, h0, h1) && AllSafe(g, v0, cat0, h1, h2)
  {
    hide CrashSafe;
    if AllSafe(g, v0, cat0, h0, h2) {
      forall i {:trigger h1[i]} | |h0| <= i < |h1|
        ensures CrashSafe(g, v0, cat0, h1[i])
      {
        assert h2[i] == h1[i];
      }
    }
    if AllSafe(g, v0, cat0, h0, h1) && AllSafe(g, v0, cat0, h1, h2) {
      forall i {:trigger h2[i]} | |h0| <= i < |h2|
        ensures CrashSafe(g, v0, cat0, h2[i])
      {
        assert i < |h1| ==> h2[i] == h1[i];
      }
    }
  }

  lemma KeepsStart(v: View, cat: Catalog)
    ensures Keeps(v, cat, v, cat)
  {
  }

  /** Changes to other chains, and to one file behind its recorded size, lose nothing recorded. */
  lemma KeepsAppend(g: Geometry, v0: View, cat0: Catalog, v: View, cat: Catalog, h: nat, n: nat, w: View, cat': Catalog)
    requires Keeps(v0, cat0, v, cat) && EntriesOwn(g, cat, {})
    requires cat'.dirs == cat.dirs
    requires forall k | k in cat.owner && k != h :: Content(w, cat', k) == Content(v, cat, k)
    requires n <= |Content(v, cat, h)| && n <= |Content(w, cat', h)|
    requires Content(w, cat', h)[..n] == Content(v, cat, h)[..n]
    requires h in cat.owner ==> CommittedSize(cat, cat.owner[h]) <= n
    ensures Keeps(v0, cat0, w, cat')
  {
    hide Content;
    forall d, i {:trigger cat0.dirs[d][i]} | d in cat0.dirs && 0 <= i < |cat0.dirs[d]| && cat0.dirs[d][i].Entry83?
      ensures d in cat'.dirs && i < |cat'.dirs[d]| && cat'.dirs[d][i].Entry83?
      ensures var e, e' := cat0.dirs[d][i], cat'.dirs[d][i];
        && e' == e.(size := e'.size)
        && (e.attr != ATTR_DIR && e.size <= |Content(v0, cat0, e.clus)| ==>
              && e.size <= e'.size && e.size <= |Content(w, cat', e.clus)|
              && Content(w, cat', e.clus)[..e.size] == Content(v0, cat0, e.clus)[..e.size])
    {
      var e, e' := cat0.dirs[d][i], cat.dirs[d][i];
      assert RefOk(g, cat, d, i);
      if e.clus == h && e.attr != ATTR_DIR && e.size <= |Content(v0, cat0, e.clus)| {
        assert e.size <= e'.size <= n;
        assert Content(w, cat', h)[..e.size] == Content(w, cat', h)[..n][..e.size];
        assert Content(v, cat, h)[..e.size] == Content(v, cat, h)[..n][..e.size];
      }
    }
  }

  /** A new zeroed cluster behind the writer's chain: what the volume and the file are then. */
  lemma WriterExtended(g: Geometry, v: View, cat: Catalog, f: FileDesc, c: nat, w: View)
    requires g.Valid() && Sound(g, v, cat, {}, {}) && WriterOk(g, cat, f)
    requires f.pos == Capacity(g, |cat.chains[f.cluster]|)
    requires g.IsCluster(c) && v.fat[c] == FREE && f.cur < |v.fat|
    requires Fits(g, w) && w.fat == LinkedFat(v.fat, f.cur, c)
    requires forall x | 0 <= x < |v.data| && x != c :: w.data[x] == v.data[x]
    ensures Sound(g, w, Extended(cat, f.cluster, c), {}, {})
    ensures WriterReady(g, Extended(cat, f.cluster, c), f.(cur := c))
    ensures |Content(v, cat, f.cluster)| == f.size
    ensures Content(v, cat, f.cluster) <= Content(w, Extended(cat, f.cluster, c), f.cluster)
    ensures forall h | h in cat.chains && h != f.cluster :: Content(w, Extended(cat, f.cluster, c), h) == Content(v, cat, h)
    ensures Evolves(cat, Extended(cat, f.cluster, c), {}, {f.cluster})
  {
    hide Mul, Quot, Rem, ChainSectors, TreeOk, DirsOk, InUse, Linked, Homed, FlatBytes, LinkedFat, Content, AtSector;
    var h := f.cluster;
    var ch, cat' := cat.chains[h], Extended(cat, h, c);
    TableExtend(g, v.fat, cat, h, c, f.cur);
    SoundExtendFile(g, v, cat, {}, {}, h, c, w);
    MulUp(|ch|, g.secPerClus);
    OwnerDir(g, cat, {}, {}, h);
    ContentLength(g, v, cat, h);
    ContentGrows(g, v, cat, h, c, w);
    forall k | k in cat.chains && k != h
      ensures Content(w, cat', k) == Content(v, cat, k)
    {
      ContentElsewhere(g, v, cat, k, c, w);
      SameChainSameContent(w, cat, cat', k);
    }
  }

  lemma OwnerDir(g: Geometry, cat: Catalog, pend: set<nat>, hole: set<Ref>, h: nat)
    requires TreeOk(g, cat, pend, hole) && h in cat.owner
    ensures cat.owner[h].dir in cat.dirs && cat.owner[h].dir in cat.chains && h in cat.chains
    ensures cat.owner[h].idx < |cat.dirs[cat.owner[h].dir]|
    ensures cat.dirs[cat.owner[h].dir][cat.owner[h].idx].Entry83? && cat.dirs[cat.owner[h].dir][cat.owner[h].idx].clus == h
    ensures cat.owner[h] !in hole ==> RefOk(g, cat, cat.owner[h].dir, cat.owner[h].idx)
  {
    var r := cat.owner[h];
    assert cat.dirs[r.dir][r.idx].Entry83?;
    assert r == Ref(r.dir, r.idx);
  }

  lemma ContentLength(g: Geometry, v: View, cat: Catalog, h: nat)
    requires g.Valid() && Fits(g, v) && TableOk(g, v.fat, cat) && h in cat.chains
    ensures |Content(v, cat, h)| == Capacity(g, |cat.chains[h]|)
  {
    ChainOf(g, v.fat, cat, h);
    ChainCovered(g, v, cat.chains[h]);
    ChainLength(g.secPerClus, v.data, cat.chains[h]);
  }

  lemma ContentGrows(g: Geometry, v: View, cat: Catalog, h: nat, c: nat, w: View)
    requires Homed(g, cat.chains, cat.place) && Fits(g, v) && Fits(g, w) && h in cat.chains && c !in cat.place
    requires g.IsCluster(c) && forall x | 0 <= x < |v.data| && x != c :: w.data[x] == v.data[x]
    ensures Content(v, cat, h) <= Content(w, Extended(cat, h, c), h)
  {
    hide FlatBytes;
    ContentElsewhere(g, v, cat, h, c, w);
    ChainAppend(w.data, cat.chains[h], c);
    FlatAppend(ChainSectors(w.data, cat.chains[h]), w.data[c]);
  }

  /** A power cut while a writer's file is being extended. */
  lemma ExtendingIsSafe(g: Geometry, v0: View, cat0: Catalog, v: View, cat: Catalog, f: FileDesc, c: nat, w: View)
    requires g.Valid() && Sound(g, v, cat, {}, {}) && WriterOk(g, cat, f) && Keeps(v0, cat0, v, cat)
    requires f.pos == Capacity(g, |cat.chains[f.cluster]|)
    requires g.IsCluster(c) && v.fat[c] == FREE && f.cur < |v.fat|
    requires Allocating(g, v, f.cur, c, w)
    ensures CrashSafe(g, v0, cat0, w)
  {
    hide Mul, Quot, Rem, ChainSectors, Shape, OwnersAreEntries, EntriesOwn, DirsOk, InUse, Linked, Homed, FlatBytes, LinkedFat;
    if w.fat == LinkedFat(v.fat, f.cur, c) {
      WriterExtended(g, v, cat, f, c, w);
      OwnersKnown(g, cat);
      KeepsAppend(g, v0, cat0, v, cat, f.cluster, f.size, w, Extended(cat, f.cluster, c));
    } else {
      SoundAlloc(g, v, cat, {}, {}, c, w);
      StrayKeeps(g, v0, cat0, v, cat, c, w);
      assert Sound(g, w, WithChain(cat, c), {c}, {}) by {
        assert {} + {c} == {c};
      }
    }
  }

  lemma OwnersKnown(g: Geometry, cat: Catalog)
    requires Shape(g, cat, {})
    ensures forall k | k in cat.owner :: k in cat.chains
  {
  }

  lemma StrayKeeps(g: Geometry, v0: View, cat0: Catalog, v: View, cat: Catalog, c: nat, w: View)
    requires Keeps(v0, cat0, v, cat) && Sound(g, v, cat, {}, {}) && c !in cat.chains && c !in cat.place
    requires |w.data| == |v.data| && forall x | 0 <= x < |v.data| && x != c :: w.data[x] == v.data[x]
    ensures Keeps(v0, cat0, w, WithChain(cat, c))
  {
    hide Homed, Linked, InUse, OwnersAreEntries, EntriesOwn, DirsOk, Keeps, Content;
    OwnersKnown(g, cat);
    forall h | h in cat.owner
      ensures h != c && Content(w, WithChain(cat, c), h) == Content(v, cat, h)
    {
      ContentElsewhere(g, v, cat, h, c, w);
      SameChainSameContent(w, cat, WithChain(cat, c), h);
    }
    assert Content(v, cat, c)[..0] == Content(w, WithChain(cat, c), c)[..0];
    KeepsAppend(g, v0, cat0, v, cat, c, 0, w, WithChain(cat, c));
  }

  lemma SameChainSameContent(v: View, cat: Catalog, cat': Catalog, h: nat)
    requires h in cat.chains && h in cat'.chains && cat.chains[h] == cat'.chains[h]
    ensures Content(v, cat', h) == Content(v, cat, h)
  {
  }

  /** Between two states only the one file grew: the directories, the owners and every other chain are the same. */
  ghost predicate OnlyFileGrew(v0: View, cat0: Catalog, v: View, cat: Catalog, h: nat) {
    && cat.dirs == cat0.dirs && cat.owner == cat0.owner && cat.depth == cat0.depth
    && cat.chains.Keys == cat0.chains.Keys
    && (forall k {:trigger cat.chains[k]} :: k in cat0.chains && k != h ==> cat.chains[k] == cat0.chains[k])
    && (forall k {:trigger Content(v, cat, k)} :: k in cat0.chains && k != h ==> Content(v, cat, k) == Content(v0, cat0, k))
    && (h in cat0.chains ==> cat0.chains[h] <= cat.chains[h])
    && StillUsed(v0.fat, v.fat)
  }

  /** No cluster was given back. */
  ghost predicate StillUsed(fat0: seq<nat>, fat: seq<nat>) {
    |fat| == |fat0| && forall x {:trigger fat[x]} :: 0 <= x < |fat0| && fat0[x] != FREE ==> fat[x] != FREE
  }

  /** No cluster is free. */
  predicate Full(fat: seq<nat>) {
    forall x {:trigger fat[x]} :: 2 <= x < |fat| ==> fat[x] != FREE
  }

  lemma LinkedStillUsed(fat0: seq<nat>, fat: seq<nat>, prev: nat, c: nat)
    requires StillUsed(fat0, fat) && prev < |fat| && 2 <= c < |fat|
    ensures StillUsed(fat0, LinkedFat(fat, prev, c))
  {
  }
}

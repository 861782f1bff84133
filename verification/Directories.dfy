/** Walking, searching and editing directories through the cache. */
module Directories {
  import opened Bytes
  import opened Layout
  import opened Chains
  import opened Volumes
  import opened Names
  import opened ShortNames
  import opened LongNames
  import opened ChainData
  import opened Cells

  /** The position of an entry: its cluster, its sector, and its byte offset there. */
  datatype DirPos = DirPos(cluster: nat, lba: nat, off: nat)

  /** `pos` is the position of entry `k` of the directory kept in `ch`. */
  ghost predicate At(g: Geometry, ch: seq<nat>, k: nat, pos: DirPos)
    requires g.secPerClus > 0
  {
    var q, s := Quot(k / PER_SECTOR, g.secPerClus), Rem(k / PER_SECTOR, g.secPerClus);
    && q < |ch| && ch[q] >= 2
    && pos == DirPos(ch[q], g.ClusterLba(ch[q]) + s, k % PER_SECTOR * ENTRY_SIZE)
  }

  ghost function Dir(data: Data, ch: seq<nat>): seq<Entry> {
    Entries(ChainSectors(data, ch))
  }

  /** A chain of a valid volume with the entries its cells describe. */
  ghost predicate Open(vol: Volume, ch: seq<nat>, cells: seq<Cell>)
    reads vol.Repr()
  {
    && vol.Valid()
    && IsChain(vol.g, vol.view.fat, ch)
    && AllMatch(Dir(vol.view.data, ch), cells)
    && WellRun(cells)
  }

  lemma ChainCovered(g: Geometry, v: View, ch: seq<nat>)
    requires g.Valid() && Fits(g, v) && IsChain(g, v.fat, ch)
    ensures Covers(g.secPerClus, v.data, ch)
    ensures |Dir(v.data, ch)| == PER_SECTOR * Mul(|ch|, g.secPerClus)
  {
    ChainLength(g.secPerClus, v.data, ch);
  }

  /** Where an entry lies. */
  lemma Locate(g: Geometry, v: View, ch: seq<nat>, k: nat, pos: DirPos)
    requires g.Valid() && Fits(g, v) && IsChain(g, v.fat, ch) && At(g, ch, k, pos)
    ensures g.IsCluster(pos.cluster) && Rem(k / PER_SECTOR, g.secPerClus) < g.secPerClus
    ensures pos.lba == g.ClusterLba(pos.cluster) + Rem(k / PER_SECTOR, g.secPerClus)
    ensures pos.off + ENTRY_SIZE <= SECTOR_SIZE
    ensures k < |Dir(v.data, ch)|
    ensures Dir(v.data, ch)[k] ==
              v.data[pos.cluster][Rem(k / PER_SECTOR, g.secPerClus)][pos.off..pos.off + ENTRY_SIZE]
  {
    hide Mul, Quot, Rem, ChainSectors;
    var m := k / PER_SECTOR;
    ChainCovered(g, v, ch);
    QuotRem(g.secPerClus, m);
    ChainSectorAt(g.secPerClus, v.data, ch, Quot(m, g.secPerClus), Rem(m, g.secPerClus));
  }

  function DirPosInit(g: Geometry, cluster: nat): DirPos
    requires cluster >= 2
  {
    DirPos(cluster, g.ClusterLba(cluster), 0)
  }

  lemma InitAt(g: Geometry, fat: seq<nat>, ch: seq<nat>)
    requires g.Valid() && IsChain(g, fat, ch)
    ensures At(g, ch, 0, DirPosInit(g, ch[0]))
  {
  }

  method DirReadEntry(vol: Volume, pos: DirPos, ghost ch: seq<nat>, ghost k: nat) returns (e: Entry)
    requires vol.Valid() && IsChain(vol.g, vol.view.fat, ch) && At(vol.g, ch, k, pos)
    modifies vol`cacheDirty, vol`cacheLba, vol.cache, vol.disk, vol.disk.sectors
    ensures vol.Valid()
    ensures k < |Dir(vol.view.data, ch)| && e == Dir(vol.view.data, ch)[k]
  {
    hide Sees, Mirrored, Mul, Quot, Rem, ChainSectors, At, Dir, IsChain;
    Locate(vol.g, vol.view, ch, k, pos);
    vol.LoadData(pos.lba, pos.cluster, Rem(k / PER_SECTOR, vol.g.secPerClus));
    e := vol.cache[pos.off..pos.off + ENTRY_SIZE];
  }

  /** What storing entry `k` does to a view. */
  ghost function StoredEntry(g: Geometry, v: View, ch: seq<nat>, k: nat, e: Entry): View
    requires g.Valid() && Fits(g, v) && IsChain(g, v.fat, ch) && k < PER_SECTOR * Mul(|ch|, g.secPerClus)
  {
    var q, s, off := Quot(k / PER_SECTOR, g.secPerClus), Rem(k / PER_SECTOR, g.secPerClus), k % PER_SECTOR * ENTRY_SIZE;
    IndexBound(g, |ch|, k);
    v.Patch(ch[q], s, off, e)
  }

  lemma IndexBound(g: Geometry, n: nat, k: nat)
    requires g.secPerClus > 0
    ensures k < PER_SECTOR * Mul(n, g.secPerClus) <==> Quot(k / PER_SECTOR, g.secPerClus) < n
  {
    var m := k / PER_SECTOR;
    QuotRem(g.secPerClus, m);
    Digits(g.secPerClus, Quot(m, g.secPerClus), Rem(m, g.secPerClus), n, 0);
  }

  /** It replaces that entry of the directory, and touches no other cluster. */
  lemma StoredEntryEffect(g: Geometry, v: View, ch: seq<nat>, k: nat, e: Entry)
    requires g.Valid() && Fits(g, v) && IsChain(g, v.fat, ch) && k < PER_SECTOR * Mul(|ch|, g.secPerClus)
    ensures k < |Dir(v.data, ch)| && Fits(g, StoredEntry(g, v, ch, k, e))
    ensures Dir(StoredEntry(g, v, ch, k, e).data, ch) == Dir(v.data, ch)[k := e]
    ensures StoredEntry(g, v, ch, k, e).fat == v.fat
    ensures forall c | 0 <= c < |v.data| && c !in ch :: StoredEntry(g, v, ch, k, e).data[c] == v.data[c]
  {
    hide Mul, Quot, Rem, ChainSectors;
    IndexBound(g, |ch|, k);
    ChainCovered(g, v, ch);
    var m, off := k / PER_SECTOR, k % PER_SECTOR * ENTRY_SIZE;
    var q, s := Quot(m, g.secPerClus), Rem(m, g.secPerClus);
    QuotRem(g.secPerClus, m);
    ChainSectorAt(g.secPerClus, v.data, ch, q, s);
    var sector: Sector := Splice(v.data[ch[q]][s], off, e);
    ChainUpdate(g.secPerClus, v, ch, q, s, sector);
    EntriesUpdate(ChainSectors(v.data, ch), m, k % PER_SECTOR, e);
  }

  method DirWriteEntry(vol: Volume, pos: DirPos, e: Entry, ghost ch: seq<nat>, ghost k: nat)
    requires vol.Valid() && IsChain(vol.g, vol.view.fat, ch) && At(vol.g, ch, k, pos)
    modifies vol.Repr()
    ensures vol.Valid() && k < PER_SECTOR * Mul(|ch|, vol.g.secPerClus)
    ensures vol.view == StoredEntry(vol.g, old(vol.view), ch, k, e)
    ensures vol.history == old(vol.history) + [vol.view]
  {
    hide Sees, Mirrored, Mul, Quot, Rem, ChainSectors, Dir;
    Locate(vol.g, vol.view, ch, k, pos);
    IndexBound(vol.g, |ch|, k);
    vol.PatchData(pos.lba, pos.off, e, pos.cluster, Rem(k / PER_SECTOR, vol.g.secPerClus));
  }

  /** The three ways to the next entry: in the same sector, in the next sector, in the next cluster. */
  lemma NextAt(g: Geometry, fat: seq<nat>, ch: seq<nat>, k: nat, pos: DirPos)
    requires g.Valid() && IsChain(g, fat, ch) && At(g, ch, k, pos)
    ensures g.IsCluster(pos.cluster) && pos.lba >= g.ClusterLba(pos.cluster)
    ensures pos.off + ENTRY_SIZE < SECTOR_SIZE ==> At(g, ch, k + 1, pos.(off := pos.off + ENTRY_SIZE))
    ensures pos.off + ENTRY_SIZE >= SECTOR_SIZE ==>
      var into := pos.lba + 1 - g.ClusterLba(pos.cluster);
      if Rem(into, g.secPerClus) != 0 then At(g, ch, k + 1, pos.(off := 0, lba := pos.lba + 1))
      else if Follows(fat[pos.cluster]) then
        var c := fat[pos.cluster];
        g.IsCluster(c) && At(g, ch, k + 1, DirPos(c, g.ClusterLba(c), 0))
      else pos.cluster == ch[|ch| - 1] && k + 1 == PER_SECTOR * Mul(|ch|, g.secPerClus)
    ensures k < PER_SECTOR * Mul(|ch|, g.secPerClus)
  {
    hide Quot, Rem, Mul;
    var m := k / PER_SECTOR;
    var q := Quot(m, g.secPerClus);
    IndexBound(g, |ch|, k);
    QuotRem(g.secPerClus, m);
    QuotRemNext(g.secPerClus, m);
    QuotRem(g.secPerClus, m + 1);
    assert fat[ch[q]] == fat[pos.cluster];
    if q + 1 < |ch| {
      assert g.IsCluster(ch[q + 1]);
    }
  }

  lemma AtBound(g: Geometry, ch: seq<nat>, k: nat, pos: DirPos)
    requires g.secPerClus > 0 && At(g, ch, k, pos)
    ensures k < PER_SECTOR * Mul(|ch|, g.secPerClus)
  {
    hide Quot, Rem, Mul;
    IndexBound(g, |ch|, k);
  }

  /** The next position, or `false` at the end of the chain, when the position still names the last cluster. */
  method DirNext(vol: Volume, pos: DirPos, ghost ch: seq<nat>, ghost k: nat) returns (ok: bool, next: DirPos)
    requires vol.Valid() && IsChain(vol.g, vol.view.fat, ch) && At(vol.g, ch, k, pos)
    modifies vol`cacheDirty, vol`cacheLba, vol.cache, vol.disk, vol.disk.sectors
    ensures vol.Valid()
    ensures ok <==> k + 1 < PER_SECTOR * Mul(|ch|, vol.g.secPerClus)
    ensures ok ==> At(vol.g, ch, k + 1, next)
    ensures !ok ==> next.cluster == ch[|ch| - 1]
  {
    hide Sees, Mirrored, Mul, Quot, Rem, At, IsChain, Geometry.ClusterLba;
    NextAt(vol.g, vol.view.fat, ch, k, pos);
    next := pos.(off := pos.off + ENTRY_SIZE);
    if next.off >= SECTOR_SIZE {
      next := next.(off := 0, lba := next.lba + 1);
      var secInClus := Rem(next.lba - vol.g.ClusterLba(next.cluster), vol.g.secPerClus);
      if secInClus == 0 && next.lba != vol.g.ClusterLba(next.cluster) {
        var nextClus := vol.FatGet(next.cluster);
        if nextClus >= EOC || nextClus < 2 {
          return false, next;
        }
        next := next.(cluster := nextClus, lba := vol.g.ClusterLba(nextClus));
      }
    }
    ok := true;
    AtBound(vol.g, ch, k + 1, next);
  }

  /** Two entries of a directory with the same sector and the same offset are the same entry. */
  lemma AtInjective(g: Geometry, fat: seq<nat>, ch: seq<nat>, i: nat, pos: DirPos, j: nat, pos': DirPos)
    requires g.Valid() && IsChain(g, fat, ch) && At(g, ch, i, pos) && At(g, ch, j, pos')
    ensures pos.lba == pos'.lba && pos.off == pos'.off <==> i == j
  {
    hide Quot, Rem, Mul;
    var m, n := i / PER_SECTOR, j / PER_SECTOR;
    QuotRem(g.secPerClus, m);
    QuotRem(g.secPerClus, n);
    Digits(g.secPerClus, ch[Quot(m, g.secPerClus)] - 2, Rem(m, g.secPerClus),
           ch[Quot(n, g.secPerClus)] - 2, Rem(n, g.secPerClus));
  }

  lemma OpenLength(vol: Volume, ch: seq<nat>, cells: seq<Cell>)
    requires Open(vol, ch, cells)
    ensures |cells| == |Dir(vol.view.data, ch)| == PER_SECTOR * Mul(|ch|, vol.g.secPerClus) > 0
    ensures At(vol.g, ch, 0, DirPosInit(vol.g, ch[0]))
  {
    ChainCovered(vol.g, vol.view, ch);
    IndexBound(vol.g, |ch|, 0);
    InitAt(vol.g, vol.view.fat, ch);
  }

  /** Reading the entry at a position, and what kind of entry it is. */
  method ReadCell(vol: Volume, pos: DirPos, ghost ch: seq<nat>, ghost cells: seq<Cell>, ghost k: nat) returns (e: Entry)
    requires Open(vol, ch, cells) && k < |cells| && At(vol.g, ch, k, pos)
    modifies vol`cacheDirty, vol`cacheLba, vol.cache, vol.disk, vol.disk.sectors
    ensures Open(vol, ch, cells)
    ensures k < |Dir(vol.view.data, ch)| && e == Dir(vol.view.data, ch)[k] && Matches(e, cells[k])
    ensures e[0] == 0 <==> cells[k].Unused?
    ensures e[0] == DELETED <==> cells[k].Deleted?
    ensures cells[k].Part? <==> e[0] !in {0, DELETED} && e[11] == ATTR_LFN
  {
    hide Sees, Mirrored, Mul, Quot, Rem, ChainSectors, At, IsChain, Dir, WellRun;
    e := DirReadEntry(vol, pos, ch, k);
    assert Matches(e, cells[k]);
    CellKind(cells, k, e);
  }

  /** Whether some live short entry has this short name. */
  method Dir83Exists(vol: Volume, dirCluster: nat, name83: Short, ghost ch: seq<nat>, ghost cells: seq<Cell>)
    returns (exists_: bool)
    requires Open(vol, ch, cells) && dirCluster == ch[0] && name83[0] != DOT
    modifies vol`cacheDirty, vol`cacheLba, vol.cache, vol.disk, vol.disk.sectors
    ensures vol.Valid()
    ensures exists_ <==> name83 in Shorts(cells)
  {
    hide Sees, Mirrored, Mul, Quot, Rem, ChainSectors, At, IsChain, Dir, WellRun, AllMatch, Volume.HistoryIsTrace;
    OpenLength(vol, ch, cells);
    var pos := DirPosInit(vol.g, dirCluster);
    ghost var k := 0;
    while true
      invariant Open(vol, ch, cells) && k < |cells| && At(vol.g, ch, k, pos)
      invariant forall i {:trigger cells[i]} :: 0 <= i < k && cells[i].Entry83? ==> cells[i].short != name83
      decreases |cells| - k
    {
      var e := ReadCell(vol, pos, ch, cells, k);
      var first := e[0];
      if first == 0 {
        UnusedEnds(cells, k);
        return false;
      }
      if first != DELETED && e[11] != ATTR_LFN {
        if e[..11] == name83 {
          assert cells[k].Entry83?;
          return true;
        }
      }
      var ok, next := DirNext(vol, pos, ch, k);
      if !ok {
        return false;
      }
      pos := next;
      k := k + 1;
    }
  }

  /** The short form for a new entry: the plain one, else the first free numbered variant, else the plain one again.
      With fewer than 9999 short names in the directory the result is always a new one. */
  method Make83Unique(vol: Volume, dirCluster: nat, name: Name, ghost ch: seq<nat>, ghost cells: seq<Cell>)
    returns (name83: Short)
    requires Open(vol, ch, cells) && dirCluster == ch[0]
    modifies vol`cacheDirty, vol`cacheLba, vol.cache, vol.disk, vol.disk.sectors
    ensures vol.Valid()
    ensures ShortFor(name, Shorts(cells), name83)
    ensures |Shorts(cells)| < 9999 ==> name83 !in Shorts(cells)
  {
    hide Sees, Mirrored, Mul, Quot, Rem, ChainSectors, IsChain, Dir, WellRun, Make83, Numbered, Shorts, Extension;
    var out := new Byte[11];
    WriteMake83(name, out);
    name83 := out[..];
    ShortNotDot(name, 1);
    var exists_ := Dir83Exists(vol, dirCluster, name83, ch, cells);
    if !exists_ {
      return;
    }
    var ext := name83[8..];
    Make83Parts(name);
    var n := 1;
    while n <= 9999
      invariant 1 <= n <= 10000 && Make83(name) in Shorts(cells)
      invariant Open(vol, ch, cells)
      invariant forall i {:trigger Numbered(name, i)} :: 1 <= i < n ==> Numbered(name, i) in Shorts(cells)
    {
      WriteNumbered(name, n, ext, out);
      name83 := out[..];
      ShortNotDot(name, n);
      exists_ := Dir83Exists(vol, dirCluster, name83, ch, cells);
      if !exists_ {
        return;
      }
      n := n + 1;
    }
    WriteMake83(name, out);
    name83 := out[..];
    if |Shorts(cells)| < 9999 {
      var _ := SomeVariantFree(name, Shorts(cells));
    }
  }

  lemma Make83Parts(name: Name)
    ensures Make83(name)[8..] == Pad(Extension(name), 3)
  {
  }

  /** What a directory scan knows before entry `k`: inside a long-name run, the tail of the name read so far and where
      the run began; outside, nothing. */
  ghost predicate ScanState(g: Geometry, ch: seq<nat>, cells: seq<Cell>, k: nat, building: bool, parts: nat,
                            buf: seq<Byte>, start: DirPos)
    requires g.secPerClus > 0 && k <= |cells|
  {
    if k > 0 && cells[k - 1].Part? then
      var c := cells[k - 1];
      && building
      && parts == Parts(c.name)
      && c.j <= parts <= k - 1 + c.j
      && Reassembled(buf, c.name, c.j)
      && At(g, ch, k - 1 - (parts - c.j), start)
    else
      !building
  }

  /** The long-name branch of a directory scan. */
  method AbsorbPart(g: Geometry, e: Entry, pos: DirPos, building: bool, parts: nat, buf: array<Byte>, start: DirPos,
                    ghost ch: seq<nat>, ghost cells: seq<Cell>, ghost k: nat)
    returns (building': bool, parts': nat, start': DirPos)
    requires g.secPerClus > 0 && buf.Length == MAX_NAME
    requires WellRun(cells) && k < |cells| && cells[k].Part? && Matches(e, cells[k]) && At(g, ch, k, pos)
    requires ScanState(g, ch, cells, k, building, parts, buf[..], start)
    modifies buf
    ensures ScanState(g, ch, cells, k + 1, building', parts', buf[..], start')
  {
    hide At, Extract, IsRecord, Reassembled;
    building', parts', start' := building, parts, start;
    ghost var c := cells[k];
    CellKind(cells, k, e);
    assert WellPlaced(cells, k);
    var seqNo := e[0] % 32;
    if e[0] / 64 % 2 == 1 {
      ClearBuffer(buf);
      parts' := seqNo;
      building' := true;
      start' := pos;
      NothingReassembled(buf[..], c.name);
    } else {
      assert cells[k - 1] == Part(c.name, c.short, c.j + 1);
    }
    ghost var before := buf[..];
    if building' && 1 <= seqNo <= 20 {
      var part := Extract(e);
      var base := (seqNo - 1) * 13;
      StorePart(buf, part, base);
      PartExtendsTail(e, c.name, Checksum(c.short), c.j, before, buf[..]);
    }
  }

  /** Looking a name up: the entry whose stored name equals it up to case, where the entry is, and where its run of
      records begins; or `false` when the directory has no such entry. */
  method DirFind(vol: Volume, dirCluster: nat, name: Name, ghost ch: seq<nat>, ghost cells: seq<Cell>)
    returns (found: bool, e: Entry, pos: DirPos, lfnStart: DirPos, ghost k: nat)
    requires Open(vol, ch, cells) && dirCluster == ch[0]
    modifies vol`cacheDirty, vol`cacheLba, vol.cache, vol.disk, vol.disk.sectors
    ensures vol.Valid()
    ensures !found ==> Absent(cells, name)
    ensures !found ==> forall i {:trigger cells[i]} :: 0 <= i < |cells| && cells[i].Entry83? ==> !SameName(cells[i].name, name)
    ensures found ==> k < |cells| && cells[k].Entry83? && SameName(cells[k].name, name)
    ensures found ==>
              && Names83(cells, k, name) && k < |Dir(vol.view.data, ch)| && e == Dir(vol.view.data, ch)[k]
              && At(vol.g, ch, k, pos)
              && Parts(cells[k].name) <= k && At(vol.g, ch, k - Parts(cells[k].name), lfnStart)
  {
    hide Sees, Mirrored, Mul, Quot, Rem, ChainSectors, At, IsChain, Dir, WellRun, Reassembled, Make83, Names83;
    hide Volume.HistoryIsTrace, AllMatch, SameName, Absent;
    OpenLength(vol, ch, cells);
    var buf := new Byte[MAX_NAME];
    var parts := 0;
    var building := false;
    pos := DirPosInit(vol.g, dirCluster);
    lfnStart := pos;
    k := 0;
    while true
      invariant Open(vol, ch, cells) && k < |cells| && At(vol.g, ch, k, pos)
      invariant forall i {:trigger Names83(cells, i, name)} :: 0 <= i < k ==> !Names83(cells, i, name)
      invariant ScanState(vol.g, ch, cells, k, building, parts, buf[..], lfnStart)
      invariant fresh(buf) && buf != vol.cache
      decreases |cells| - k
    {
      e := ReadCell(vol, pos, ch, cells, k);
      if !cells[k].Entry83? {
        NamesOnly83(cells, k, name);
      }
      var first := e[0];
      if first == 0 {
        NothingUnused(cells, k, name);
        return false, e, pos, lfnStart, k;
      }
      if first == DELETED {
        building := false;
        parts := 0;
      } else if e[11] == ATTR_LFN {
        building, parts, lfnStart := AbsorbPart(vol.g, e, pos, building, parts, buf, lfnStart, ch, cells, k);
      } else {
        var match_ := MatchesEntry(name, e, building, parts, buf, ch, cells, k, vol.g, lfnStart);
        if match_ {
          found := true;
          FoundSays(cells, k, name);
          if !building {
            lfnStart := pos;
          }
          return;
        }
        building := false;
        parts := 0;
        lfnStart := pos;
      }
      var ok, next := DirNext(vol, pos, ch, k);
      if !ok {
        AbsentSays(cells, name);
        return false, e, pos, lfnStart, k;
      }
      pos := next;
      k := k + 1;
    }
  }

  /** The comparison of a scan at a short entry: by the long name if one was being built, else by the short name. */
  method MatchesEntry(name: Name, e: Entry, building: bool, parts: nat, buf: array<Byte>,
                      ghost ch: seq<nat>, ghost cells: seq<Cell>, ghost k: nat, ghost g: Geometry, ghost start: DirPos)
    returns (match_: bool)
    requires buf.Length == MAX_NAME && g.secPerClus > 0
    requires WellRun(cells) && k < |cells| && (cells[k].Entry83? || cells[k].Dot?) && Matches(e, cells[k])
    requires ScanState(g, ch, cells, k, building, parts, buf[..], start)
    ensures match_ <==> Names83(cells, k, name)
    ensures match_ ==> building && Parts(cells[k].name) <= k && At(g, ch, k - Parts(cells[k].name), start)
  {
    assert WellPlaced(cells, k);
    if k > 0 {
      assert WellPlaced(cells, k - 1);
    }
    hide At, Make83, Fold;
    match_ := false;
    if building && parts > 0 {
      match_ := MatchesBuffer(name, buf, cells[k].name);
    }
    if !match_ && !building {
      var out := new Byte[11];
      WriteMake83(name, out);
      ShortNotDot(name, 1);
      match_ := e[..11] == out[..];
      assert cells[k].Dot? && e[..11][0] == DOT;
    }
  }

  lemma FoundSays(cells: seq<Cell>, k: nat, name: Name)
    requires Names83(cells, k, name)
    ensures k < |cells| && cells[k].Entry83? && SameName(cells[k].name, name)
  {
    FoldExactly(cells[k].name, name);
  }

  lemma AbsentSays(cells: seq<Cell>, name: Name)
    requires forall i {:trigger Names83(cells, i, name)} :: 0 <= i < |cells| ==> !Names83(cells, i, name)
    ensures Absent(cells, name)
    ensures forall i {:trigger cells[i]} :: 0 <= i < |cells| && cells[i].Entry83? ==> !SameName(cells[i].name, name)
  {
    hide SameName;
    forall i {:trigger cells[i]} | 0 <= i < |cells| && cells[i].Entry83?
      ensures !SameName(cells[i].name, name)
    {
      FoldExactly(cells[i].name, name);
      assert !Names83(cells, i, name);
    }
  }

  lemma NamesOnly83(cells: seq<Cell>, k: nat, name: Name)
    requires k < |cells| && !cells[k].Entry83?
    ensures !Names83(cells, k, name)
  {
  }

  lemma NothingUnused(cells: seq<Cell>, k: nat, name: Name)
    requires WellRun(cells) && k < |cells| && cells[k].Unused?
    requires forall i {:trigger Names83(cells, i, name)} :: 0 <= i < k ==> !Names83(cells, i, name)
    ensures Absent(cells, name)
    ensures forall i {:trigger cells[i]} :: 0 <= i < |cells| && cells[i].Entry83? ==> !SameName(cells[i].name, name)
  {
    UnusedEnds(cells, k);
    AbsentSays(cells, name);
  }
}

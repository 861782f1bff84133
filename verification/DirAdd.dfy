/** Adding an entry to a directory. */
module DirAdd {
  import opened Bytes
  import opened Layout
  import opened Chains
  import opened Volumes
  import opened Names
  import opened LongNames
  import opened ChainData
  import opened Cells
  import opened Directories

  const WRITE_DATE: nat := 0x5B21

  /** Writes the two halves of a cluster number to where an entry has them. */
  method PutCluster(buf: array<Byte>, clus: nat)
    requires buf.Length == ENTRY_SIZE && clus < U32
    modifies buf
    ensures buf[20..22] == Le16(clus / 0x1_0000) && buf[26..28] == Le16(clus % 0x1_0000)
    ensures forall i | 0 <= i < ENTRY_SIZE && !(20 <= i < 22) && !(26 <= i < 28) :: buf[i] == old(buf[i])
  {
    hide Le16;
    MemCpy(buf, 20, Le16(clus / 0x1_0000));
    MemCpy(buf, 26, Le16(clus % 0x1_0000));
  }

  /** The 32 bytes of a short entry. */
  method BuildEntry83(name83: Short, attr: Byte, clus: nat, size: nat, ghost name: Name) returns (e: Entry)
    requires Storable(name) && name83[0] !in {0, DELETED, DOT} && attr in {ATTR_DIR, ATTR_ARCHIVE}
    requires clus < U32 && size < U32
    ensures Matches(e, Entry83(name, name83, attr, clus, size))
    ensures (forall i | 12 <= i < 20 :: e[i] == 0) && e[22] == 0 && e[23] == 0 && e[24] == 0x21 && e[25] == 0x5B
  {
    hide Le16, Le32, Un16, Un32, Storable;
    DateBytes();
    var buf := new Byte[ENTRY_SIZE];
    ClearBuffer(buf);
    MemCpy(buf, 0, name83);
    buf[11] := attr;
    PutCluster(buf, clus);
    MemCpy(buf, 22, Le16(0));
    MemCpy(buf, 24, Le16(WRITE_DATE));
    MemCpy(buf, 28, Le32(size));
    e := buf[..];
    assert e[..11] == name83;
    assert e[20..22] == Le16(clus / 0x1_0000) && e[26..28] == Le16(clus % 0x1_0000) && e[28..32] == Le32(size);
    Le16RoundTrip(clus / 0x1_0000);
    Le16RoundTrip(clus % 0x1_0000);
    Le32RoundTrip(size);
  }

  lemma DateBytes()
    ensures Le16(0) == [0, 0] && Le16(WRITE_DATE) == [0x21, 0x5B]
  {
  }

  /** The 32 bytes of a dot entry. */
  method BuildDot(up: bool, clus: nat) returns (e: Entry)
    requires clus < U32
    ensures Matches(e, Dot(up, clus))
  {
    var buf := new Byte[ENTRY_SIZE];
    ClearBuffer(buf);
    MemCpy(buf, 0, DotName(up));
    buf[11] := ATTR_DIR;
    PutCluster(buf, clus);
    e := buf[..];
    assert e[..11] == DotName(up);
    assert e[20..22] == Le16(clus / 0x1_0000) && e[26..28] == Le16(clus % 0x1_0000);
    Le16RoundTrip(clus / 0x1_0000);
    Le16RoundTrip(clus % 0x1_0000);
  }

  /** The view is `v` but for the clusters of the directory `ch`, which reads as `cells`. */
  ghost predicate DirState(g: Geometry, v: View, ch: seq<nat>, cells: seq<Cell>, w: View) {
    && Fits(g, w)
    && w.fat == v.fat
    && (forall c {:trigger w.data[c]} :: 0 <= c < |w.data| && c < |v.data| && c !in ch ==> w.data[c] == v.data[c])
    && AllMatch(Dir(w.data, ch), cells)
  }

  /** The view while a run is being written at `s`: some front part of it is in place. */
  ghost predicate PartlyWritten(g: Geometry, v: View, ch: seq<nat>, cells: seq<Cell>, s: nat, run: seq<Cell>, w: View)
    requires s + |run| <= |cells|
  {
    exists n {:trigger run[..n]} :: 0 <= n <= |run| && DirState(g, v, ch, Splice(cells, s, run[..n]), w)
  }

  /** Storing the next entry of a run. */
  lemma RunStep(g: Geometry, v: View, ch: seq<nat>, cells: seq<Cell>, s: nat, run: seq<Cell>, n: nat, w: View, e: Entry)
    requires g.Valid() && Fits(g, v) && IsChain(g, v.fat, ch) && s + |run| <= |cells| && n < |run|
    requires DirState(g, v, ch, Splice(cells, s, run[..n]), w) && Matches(e, run[n])
    requires s + n < PER_SECTOR * Mul(|ch|, g.secPerClus)
    ensures DirState(g, v, ch, Splice(cells, s, run[..n + 1]), StoredEntry(g, w, ch, s + n, e))
    ensures PartlyWritten(g, v, ch, cells, s, run, StoredEntry(g, w, ch, s + n, e))
  {
    hide Mul, Quot, Rem, Dir, Matches, IsChain, AllMatch, StoredEntry, Splice;
    StoredEntryEffect(g, w, ch, s + n, e);
    SpliceNext(cells, s, run, n);
    AllMatchUpdate(Dir(w.data, ch), Splice(cells, s, run[..n]), s + n, e, run[n]);
  }

  lemma SpliceNext<T>(a: seq<T>, s: nat, b: seq<T>, n: nat)
    requires s + |b| <= |a| && n < |b|
    ensures Splice(a, s, b[..n + 1]) == Splice(a, s, b[..n])[s + n := b[n]]
  {
    assert b[..n + 1] == b[..n] + [b[n]];
  }

  lemma AllMatchUpdate(es: seq<Entry>, cells: seq<Cell>, k: nat, e: Entry, c: Cell)
    requires AllMatch(es, cells) && k < |es| && Matches(e, c)
    ensures AllMatch(es[k := e], cells[k := c])
  {
    hide Matches;
  }

  /** Writes the records of the name and the short entry behind them, one sector write each. */
  method WriteRun(vol: Volume, start: DirPos, name: Name, name83: Short, attr: Byte, clus: nat, size: nat,
                  ghost ch: seq<nat>, ghost cells: seq<Cell>, ghost s: nat) returns (pos: DirPos)
    requires Open(vol, ch, cells) && At(vol.g, ch, s, start)
    requires Storable(name) && name83[0] !in {0, DELETED, DOT} && attr in {ATTR_DIR, ATTR_ARCHIVE}
    requires clus < U32 && size < U32
    requires s + Parts(name) + 1 <= |cells|
    modifies vol.Repr()
    ensures vol.Valid()
    ensures DirState(vol.g, old(vol.view), ch, Splice(cells, s, Run(name, name83, attr, clus, size)), vol.view)
    ensures At(vol.g, ch, s + Parts(name), pos)
    ensures old(vol.history) <= vol.history
    ensures forall i {:trigger vol.history[i]} :: |old(vol.history)| <= i < |vol.history| ==>
              PartlyWritten(vol.g, old(vol.view), ch, cells, s, Run(name, name83, attr, clus, size), vol.history[i])
  {
    hide Sees, Mirrored, Mul, Quot, Rem, ChainSectors, At, IsChain, Dir, WellRun, StoredEntry, IsRecord, PartlyWritten;
    hide Volume.HistoryIsTrace, Checksum, Order;
    OpenLength(vol, ch, cells);
    ghost var v, run := vol.view, Run(name, name83, attr, clus, size);
    var checksum := LfnChecksum(name83);
    pos := start;
    var i := Parts(name);
    ghost var n := 0;
    assert Splice(cells, s, run[..0]) == cells;
    while i >= 1
      invariant 0 <= i <= Parts(name) && n == Parts(name) - i
      invariant vol.Valid() && vol.view.fat == v.fat && At(vol.g, ch, s + n, pos)
      invariant DirState(vol.g, v, ch, Splice(cells, s, run[..n]), vol.view)
      invariant old(vol.history) <= vol.history
      invariant forall h {:trigger vol.history[h]} :: |old(vol.history)| <= h < |vol.history| ==>
                  PartlyWritten(vol.g, v, ch, cells, s, run, vol.history[h])
    {
      var lfn := BuildRecord(name, checksum, i);
      RunStep(vol.g, v, ch, cells, s, run, n, vol.view, lfn);
      DirWriteEntry(vol, pos, lfn, ch, s + n);
      var ok, next := DirNext(vol, pos, ch, s + n);
      pos := next;
      i := i - 1;
      n := n + 1;
    }
    var e83 := BuildEntry83(name83, attr, clus, size, name);
    RunStep(vol.g, v, ch, cells, s, run, n, vol.view, e83);
    DirWriteEntry(vol, pos, e83, ch, s + n);
    assert run[..n + 1] == run;
  }

  /** Where a new entry went: the directory's chain and cells it was placed in (`grown` is the cluster the directory was
      extended by, or 0), the place of its first record, and its short form. */
  datatype Placement = Placement(ch: seq<nat>, cells: seq<Cell>, grown: nat, at: nat, short: Short)

  function UnusedCells(g: Geometry): (cells: seq<Cell>)
    ensures forall i {:trigger cells[i]} :: 0 <= i < |cells| ==> cells[i] == Unused
  {
    seq(PER_SECTOR * g.secPerClus, _ => Unused)
  }

  /** The run has room at `p.at`, on the first free places of a gap. */
  ghost predicate Fitting(p: Placement, name: Name) {
    && p.at + Parts(name) + 1 <= |p.cells|
    && (forall i {:trigger p.cells[i]} :: p.at <= i < p.at + Parts(name) + 1 ==> Free(p.cells[i]))
    && (p.at == 0 || !Free(p.cells[p.at - 1]))
  }

  /** The directory the run is placed in is the old one, or the old one with one zeroed cluster more. */
  ghost predicate Placed(g: Geometry, v: View, ch: seq<nat>, cells: seq<Cell>, p: Placement) {
    if p.grown == 0 then
      p.ch == ch && p.cells == cells
    else
      && g.IsCluster(p.grown) && p.grown < |v.fat| && v.fat[p.grown] == FREE
      && p.ch == ch + [p.grown] && p.cells == cells + UnusedCells(g)
  }

  ghost function Grown(g: Geometry, v: View, ch: seq<nat>, p: Placement): View {
    if p.grown == 0 || ch == [] || p.grown >= |v.fat| || p.grown >= |v.data| || ch[|ch| - 1] >= |v.fat| then v
    else View(LinkedFat(v.fat, ch[|ch| - 1], p.grown), v.data[p.grown := ZeroSectors(g.secPerClus)])
  }

  lemma ChainExtended(g: Geometry, fat: seq<nat>, ch: seq<nat>, c: nat)
    requires g.Valid() && IsChain(g, fat, ch) && g.IsCluster(c) && fat[c] == FREE
    ensures c !in ch
    ensures IsChain(g, LinkedFat(fat, ch[|ch| - 1], c), ch + [c])
  {
    forall i | 0 <= i < |ch|
      ensures ch[i] != c
    {
      assert fat[ch[i]] != FREE by {
        if i + 1 < |ch| {
          assert g.IsCluster(ch[i + 1]);
        }
      }
    }
    var fat', ch' := LinkedFat(fat, ch[|ch| - 1], c), ch + [c];
    forall i {:trigger fat'[ch'[i]]} | 0 <= i < |ch'|
      ensures if i + 1 < |ch'| then fat'[ch'[i]] == ch'[i + 1] else fat'[ch'[i]] >= EOC
    {
      if i < |ch| {
        assert fat[ch[i]] == fat[ch'[i]];
      }
    }
  }

  lemma ZeroEntries(n: nat)
    ensures |Entries(ZeroSectors(n))| == PER_SECTOR * n
    ensures forall k | 0 <= k < PER_SECTOR * n :: Matches(Entries(ZeroSectors(n))[k], Unused)
  {
  }

  lemma CellsExtended(g: Geometry, v: View, ch: seq<nat>, cells: seq<Cell>, c: nat, w: View)
    requires g.Valid() && Fits(g, v) && IsChain(g, v.fat, ch) && g.IsCluster(c) && c !in ch
    requires w.data == v.data[c := ZeroSectors(g.secPerClus)]
    requires AllMatch(Dir(v.data, ch), cells)
    ensures AllMatch(Dir(w.data, ch + [c]), cells + UnusedCells(g))
  {
    hide Matches, Entries, ChainSectors, IsChain;
    assert forall i | 0 <= i < |ch| :: g.IsCluster(ch[i]) by {
      ClustersOf(g, v.fat, ch);
    }
    ChainFrame(v.data, w.data, ch);
    ChainAppend(w.data, ch, c);
    EntriesAppend(ChainSectors(w.data, ch), w.data[c]);
    ZeroEntries(g.secPerClus);
  }

  lemma ClustersOf(g: Geometry, fat: seq<nat>, ch: seq<nat>)
    requires IsChain(g, fat, ch)
    ensures |ch| > 0 && |fat| == g.totalClusters + 2
    ensures forall i | 0 <= i < |ch| :: g.IsCluster(ch[i])
  {
  }

  lemma GrownOpen(g: Geometry, v: View, ch: seq<nat>, cells: seq<Cell>, p: Placement, w: View)
    requires g.Valid() && Fits(g, v) && IsChain(g, v.fat, ch)
    requires AllMatch(Dir(v.data, ch), cells) && WellRun(cells)
    requires Placed(g, v, ch, cells, p) && w == Grown(g, v, ch, p)
    ensures IsChain(g, w.fat, p.ch) && AllMatch(Dir(w.data, p.ch), p.cells) && WellRun(p.cells)
  {
    hide AllMatch, WellRun, Dir;
    if p.grown != 0 {
      ChainExtended(g, v.fat, ch, p.grown);
      CellsExtended(g, v, ch, cells, p.grown, w);
      WellRunGrows(cells, PER_SECTOR * g.secPerClus);
    }
  }

  /** A run of `n` free places ending before `k`, begun at the first free place behind one in use. */
  ghost predicate GapBefore(cells: seq<Cell>, k: nat, n: nat) {
    && n <= k <= |cells|
    && (forall i {:trigger cells[i]} :: k - n <= i < k ==> Free(cells[i]))
    && (k - n == 0 || !Free(cells[k - n - 1]))
  }

  /** While the directory kept in `ch` was extended by `c` the disk held the cluster closed but not linked, and linked but
      not zeroed. */
  ghost predicate GrowthPassed(v: View, ch: seq<nat>, c: nat, h0: seq<View>, h1: seq<View>) {
    && ch != [] && c < |v.fat| && ch[|ch| - 1] < |v.fat|
    && Passed(h0, h1, View(v.fat[c := EOC_MARK], v.data))
    && Passed(h0, h1, View(LinkedFat(v.fat, ch[|ch| - 1], c), v.data))
  }

  lemma GrowthPassedOn(v: View, ch: seq<nat>, c: nat, h0: seq<View>, h1: seq<View>, h2: seq<View>)
    requires GrowthPassed(v, ch, c, h0, h1) && h1 <= h2
    ensures GrowthPassed(v, ch, c, h0, h2)
  {
    hide Passed, LinkedFat;
    PassedOn(h0, h1, h2, View(v.fat[c := EOC_MARK], v.data));
    PassedOn(h0, h1, h2, View(LinkedFat(v.fat, ch[|ch| - 1], c), v.data));
  }

  /** There are `n` free places in a row from `s` on. */
  ghost predicate RoomAt(cells: seq<Cell>, s: nat, n: nat) {
    s + n <= |cells| && forall i {:trigger cells[i]} :: s <= i < s + n ==> Free(cells[i])
  }

  /** There is room for `n` entries in a row without extending the directory. */
  ghost predicate HasRoom(cells: seq<Cell>, n: nat) {
    exists s: nat :: RoomAt(cells, s, n)
  }

  /** Room shows in the first bytes of the entries on the disk: 0 for one that was never used, 0xE5 for a deleted one. */
  lemma RoomShows(es: seq<Entry>, cells: seq<Cell>, s: nat, n: nat)
    requires AllMatch(es, cells) && WellRun(cells)
    ensures RoomAt(cells, s, n) <==> s + n <= |es| && forall i {:trigger es[i]} :: s <= i < s + n ==> es[i][0] in {0x00, 0xE5}
  {
    hide WellRun, Matches;
    forall i {:trigger es[i]} {:trigger cells[i]} | 0 <= i < |es|
      ensures Free(cells[i]) <==> es[i][0] in {0x00, 0xE5}
    {
      CellKind(cells, i, es[i]);
    }
  }

  /** None of the rooms for `n` entries ends at `k` or before. */
  ghost predicate NoRoomUpTo(cells: seq<Cell>, k: nat, n: nat) {
    forall s: nat {:trigger RoomAt(cells, s, n)} :: s + n <= k ==> !RoomAt(cells, s, n)
  }

  lemma NoRoomNext(cells: seq<Cell>, k: nat, free: nat, n: nat)
    requires k < |cells| && NoRoomUpTo(cells, k, n) && GapBefore(cells, k + 1, free) && free < n
    ensures NoRoomUpTo(cells, k + 1, n)
  {
    forall s: nat | s + n <= k + 1
      ensures !RoomAt(cells, s, n)
    {
      if s + n == k + 1 {
        assert !Free(cells[k - free]);
      }
    }
  }

  lemma NoGapYet(cells: seq<Cell>)
    ensures GapBefore(cells, 0, 0)
  {
  }

  lemma GapNext(cells: seq<Cell>, k: nat, n: nat)
    requires k < |cells| && GapBefore(cells, k, n)
    ensures n <= k && GapBefore(cells, k + 1, if Free(cells[k]) then n + 1 else 0)
  {
  }

  lemma GapFits(p: Placement, k: nat, name: Name)
    requires GapBefore(p.cells, k, Parts(name) + 1) && p.at + Parts(name) + 1 == k
    ensures Fitting(p, name)
  {
  }

  /** The first room, when the search has found one. */
  lemma FirstRoom(cells: seq<Cell>, k: nat, n: nat)
    requires k < |cells| && NoRoomUpTo(cells, k, n) && GapBefore(cells, k + 1, n) && n > 0
    ensures RoomAt(cells, k + 1 - n, n) && HasRoom(cells, n)
    ensures forall s: nat {:trigger RoomAt(cells, s, n)} :: s < k + 1 - n ==> !RoomAt(cells, s, n)
  {
    assert RoomAt(cells, k + 1 - n, n);
  }

  lemma NoRoomYet(cells: seq<Cell>, n: nat)
    requires n > 0
    ensures NoRoomUpTo(cells, 0, n)
  {
  }

  lemma NoRoomAtAll(cells: seq<Cell>, n: nat)
    requires NoRoomUpTo(cells, |cells|, n)
    ensures !HasRoom(cells, n)
  {
  }

  /** One zeroed cluster more at the end of a directory; the gap at its end, if there is one, goes on into it. */
  method GrowDirectory(vol: Volume, lastClus: nat, start: DirPos, freeRun: nat, name: Name,
                       ghost ch: seq<nat>, ghost cells: seq<Cell>)
    returns (ok: bool, start': DirPos, ghost p: Placement)
    requires Open(vol, ch, cells) && lastClus == ch[|ch| - 1] && |name| < MAX_NAME && vol.g.secPerClus >= 2
    requires GapBefore(cells, |cells|, freeRun)
    requires freeRun > 0 ==> At(vol.g, ch, |cells| - freeRun, start)
    modifies vol.Repr()
    ensures vol.Valid()
    ensures !ok ==> vol.view == old(vol.view) && vol.history == old(vol.history)
    ensures !ok ==> forall x {:trigger vol.view.fat[x]} :: 2 <= x < |vol.view.fat| ==> vol.view.fat[x] != FREE
    ensures ok ==> Placed(vol.g, old(vol.view), ch, cells, p) && vol.view == Grown(vol.g, old(vol.view), ch, p)
    ensures ok ==> p.grown != 0 && Open(vol, p.ch, p.cells) && Fitting(p, name) && At(vol.g, p.ch, p.at, start')
    ensures ok ==> GrowthPassed(old(vol.view), ch, p.grown, old(vol.history), vol.history)
    ensures old(vol.history) <= vol.history
  {
    hide Sees, Mirrored, Mul, Quot, Rem, ChainSectors, At, IsChain, Dir, WellRun, Volume.HistoryIsTrace, LinkedFat;
    hide Allocating, AllMatch, Passed;
    OpenLength(vol, ch, cells);
    ClustersOf(vol.g, vol.view.fat, ch);
    LastInUse(vol.g, vol.view.fat, ch);
    var newClus := vol.FatAlloc(lastClus);
    p := Placement(ch + [newClus], cells + UnusedCells(vol.g), newClus, |cells| - freeRun, Make83(name));
    start' := start;
    if newClus == 0 {
      return false, start', p;
    }
    GrownOpen(vol.g, old(vol.view), ch, cells, p, vol.view);
    var pos := DirPosInit(vol.g, newClus);
    if freeRun == 0 {
      start' := pos;
      AtTail(vol.g, ch, newClus, |cells|);
    } else {
      AtLonger(vol.g, ch, newClus, |cells| - freeRun, start);
    }
    ok := true;
  }

  /** The search for room: the first gap of `need` free places, or the free tail and one more cluster. */
  method FindRoom(vol: Volume, dirCluster: nat, name: Name, ghost ch: seq<nat>, ghost cells: seq<Cell>)
    returns (ok: bool, start: DirPos, ghost p: Placement)
    requires Open(vol, ch, cells) && dirCluster == ch[0] && |name| < MAX_NAME && vol.g.secPerClus >= 2
    modifies vol.Repr()
    ensures vol.Valid()
    ensures !ok ==> vol.view == old(vol.view) && vol.history == old(vol.history)
    ensures !ok ==> forall x {:trigger vol.view.fat[x]} :: 2 <= x < |vol.view.fat| ==> vol.view.fat[x] != FREE
    ensures ok ==> Placed(vol.g, old(vol.view), ch, cells, p) && vol.view == Grown(vol.g, old(vol.view), ch, p)
    ensures ok ==> Open(vol, p.ch, p.cells) && Fitting(p, name) && At(vol.g, p.ch, p.at, start)
    ensures ok && p.grown == 0 ==> vol.history == old(vol.history)
    ensures ok ==> (p.grown == 0 <==> HasRoom(cells, Parts(name) + 1))
    ensures !ok ==> !HasRoom(cells, Parts(name) + 1)
    ensures ok && p.grown == 0 ==>
              forall s: nat {:trigger RoomAt(cells, s, Parts(name) + 1)} :: s < p.at ==> !RoomAt(cells, s, Parts(name) + 1)
    ensures ok && p.grown != 0 ==> GrowthPassed(old(vol.view), ch, p.grown, old(vol.history), vol.history)
    ensures old(vol.history) <= vol.history
  {
    hide Sees, Mirrored, Mul, Quot, Rem, ChainSectors, At, IsChain, Dir, WellRun, Volume.HistoryIsTrace, LinkedFat;
    hide AllMatch, Matches, RoomAt, HasRoom, NoRoomUpTo, GrowthPassed, GapBefore, Fitting;
    OpenLength(vol, ch, cells);
    ClustersOf(vol.g, vol.view.fat, ch);
    var need := Parts(name) + 1;
    var pos := DirPosInit(vol.g, dirCluster);
    var freeRun := 0;
    start := pos;
    ghost var k := 0;
    NoRoomYet(cells, need);
    NoGapYet(cells);
    while true
      invariant Open(vol, ch, cells) && k < |cells| && At(vol.g, ch, k, pos)
      invariant vol.view == old(vol.view) && vol.history == old(vol.history)
      invariant freeRun < need && freeRun <= k && GapBefore(cells, k, freeRun) && NoRoomUpTo(cells, k, need)
      invariant freeRun > 0 ==> At(vol.g, ch, k - freeRun, start)
      decreases |cells| - k
    {
      var e := ReadCell(vol, pos, ch, cells, k);
      var first := e[0];
      GapNext(cells, k, freeRun);
      if first == 0 || first == DELETED {
        if freeRun == 0 {
          start := pos;
        }
        freeRun := freeRun + 1;
        if freeRun >= need {
          FirstRoom(cells, k, need);
          p := Placement(ch, cells, 0, k + 1 - freeRun, Make83(name));
          GapFits(p, k + 1, name);
          return true, start, p;
        }
      } else {
        freeRun := 0;
      }
      NoRoomNext(cells, k, freeRun, need);
      var more, next := DirNext(vol, pos, ch, k);
      if !more {
        NoRoomAtAll(cells, need);
        ok, start, p := GrowDirectory(vol, next.cluster, start, freeRun, name, ch, cells);
        return;
      }
      pos := next;
      k := k + 1;
    }
  }

  /** Between the link to a new cluster and its zeroing the directory reads on into what the cluster held before. */
  lemma StaleEntriesShow(g: Geometry, v: View, ch: seq<nat>, c: nat)
    requires g.Valid() && Fits(g, v) && IsChain(g, v.fat, ch) && g.IsCluster(c) && v.fat[c] == FREE
    ensures IsChain(g, LinkedFat(v.fat, ch[|ch| - 1], c), ch + [c])
    ensures Dir(v.data, ch + [c]) == Dir(v.data, ch) + Entries(v.data[c])
  {
    hide Entries, ChainSectors, IsChain;
    ChainExtended(g, v.fat, ch, c);
    ClustersOf(g, v.fat, ch);
    ChainAppend(v.data, ch, c);
    EntriesAppend(ChainSectors(v.data, ch), v.data[c]);
  }

  lemma LastInUse(g: Geometry, fat: seq<nat>, ch: seq<nat>)
    requires g.Valid() && IsChain(g, fat, ch)
    ensures fat[ch[|ch| - 1]] != FREE
  {
  }

  lemma AtLonger(g: Geometry, ch: seq<nat>, c: nat, k: nat, pos: DirPos)
    requires g.secPerClus > 0 && At(g, ch, k, pos)
    ensures At(g, ch + [c], k, pos)
  {
    hide Quot, Rem;
  }

  lemma AtTail(g: Geometry, ch: seq<nat>, c: nat, k: nat)
    requires g.secPerClus > 0 && k == PER_SECTOR * Mul(|ch|, g.secPerClus) && c >= 2
    ensures At(g, ch + [c], k, DirPosInit(g, c))
  {
    hide Quot, Rem;
    QuotRemUnique(g.secPerClus, |ch|, 0);
  }

  /** What adding an entry does: the directory, grown if need be, with the run of the new entry in place. */
  ghost predicate Added(g: Geometry, v: View, ch: seq<nat>, cells: seq<Cell>, p: Placement, run: seq<Cell>, w: View) {
    && Placed(g, v, ch, cells, p)
    && p.at + |run| <= |p.cells|
    && DirState(g, Grown(g, v, ch, p), p.ch, Splice(p.cells, p.at, run), w)
  }

  /** Adds an entry, or leaves everything as it was when the directory is full and so is the disk. */
  method DirAddEntry(vol: Volume, dirCluster: nat, name: Name, attr: Byte, clus: nat, size: nat,
                     ghost ch: seq<nat>, ghost cells: seq<Cell>)
    returns (ok: bool, pos: DirPos, ghost p: Placement)
    requires Open(vol, ch, cells) && dirCluster == ch[0] && Storable(name) && vol.g.secPerClus >= 2
    requires attr in {ATTR_DIR, ATTR_ARCHIVE} && clus < U32 && size < U32
    modifies vol.Repr()
    ensures vol.Valid()
    ensures !ok ==> vol.view == old(vol.view) && vol.history == old(vol.history)
    ensures !ok ==> forall x {:trigger vol.view.fat[x]} :: 2 <= x < |vol.view.fat| ==> vol.view.fat[x] != FREE
    ensures ok ==>
              && Added(vol.g, old(vol.view), ch, cells, p, Run(name, p.short, attr, clus, size), vol.view)
              && Fitting(p, name) && WellRun(p.cells)
              && At(vol.g, p.ch, p.at + Parts(name), pos)
              && p.short[0] !in {0, DELETED, DOT}
              && ShortFor(name, Shorts(cells), p.short)
              && (|Shorts(cells)| < 9999 ==> p.short !in Shorts(cells))
    ensures old(vol.history) <= vol.history
    ensures ok ==> (p.grown == 0 <==> HasRoom(cells, Parts(name) + 1))
    ensures !ok ==> !HasRoom(cells, Parts(name) + 1)
    ensures ok && p.grown == 0 ==>
              forall s: nat {:trigger RoomAt(cells, s, Parts(name) + 1)} :: s < p.at ==> !RoomAt(cells, s, Parts(name) + 1)
    ensures ok && p.grown != 0 ==> GrowthPassed(old(vol.view), ch, p.grown, old(vol.history), vol.history)
    ensures ok && p.grown == 0 ==>
              forall i {:trigger vol.history[i]} :: |old(vol.history)| <= i < |vol.history| ==>
                PartlyWritten(vol.g, old(vol.view), ch, cells, p.at, Run(name, p.short, attr, clus, size), vol.history[i])
  {
    hide Sees, Mirrored, Mul, Quot, Rem, ChainSectors, At, IsChain, Dir, WellRun, AllMatch, Volume.HistoryIsTrace;
    hide LinkedFat, Make83, Numbered, Shorts, PartlyWritten, Storable, Grown, Variants, HasRoom, RoomAt, GrowthPassed;
    var name83 := Make83Unique(vol, dirCluster, name, ch, cells);
    assert name83[0] !in {0, DELETED, DOT} by {
      ShortForIsLive(name, Shorts(cells), name83);
    }
    var start;
    StorableFits(name);
    ok, start, p := FindRoom(vol, dirCluster, name, ch, cells);
    if !ok {
      return false, start, p;
    }
    GrownIgnoresShort(vol.g, old(vol.view), ch, p, name83);
    p := p.(short := name83);
    assert p.grown == 0 ==> vol.view == old(vol.view) by {
      if p.grown == 0 {
        NotGrown(vol.g, old(vol.view), ch, p);
      }
    }
    ghost var grown := vol.history;
    pos := WriteRun(vol, start, name, name83, attr, clus, size, p.ch, p.cells, p.at);
    if p.grown != 0 {
      GrowthPassedOn(old(vol.view), ch, p.grown, old(vol.history), grown, vol.history);
    }
  }

  lemma StorableFits(name: Name)
    requires Storable(name)
    ensures |name| < MAX_NAME
  {
  }

  lemma NotGrown(g: Geometry, v: View, ch: seq<nat>, p: Placement)
    requires p.grown == 0
    ensures Grown(g, v, ch, p) == v
  {
  }

  lemma GrownIgnoresShort(g: Geometry, v: View, ch: seq<nat>, p: Placement, short: Short)
    ensures Grown(g, v, ch, p) == Grown(g, v, ch, p.(short := short))
  {
  }

  // ---- An entry without a name ----

  /** A live short entry. */
  ghost predicate LiveShort(e: Entry, short: Short, attr: Byte, clus: nat, size: nat) {
    && EntryShort(e) == short && short[0] !in {0, DELETED, DOT}
    && e[11] == attr && attr in {ATTR_DIR, ATTR_ARCHIVE} && EntryCluster(e) == clus && EntrySize(e) == size
  }

  /** The directory reads as `p.cells` but at `p.at`, a place that was free, where there is a live short entry with no record
      of a name in front of it. */
  ghost predicate NamelessAt(es: seq<Entry>, p: Placement, attr: Byte, clus: nat, size: nat) {
    && |es| == |p.cells| && p.at < |es| && WellRun(p.cells)
    && Free(p.cells[p.at]) && (p.at == 0 || !Free(p.cells[p.at - 1]))
    && LiveShort(es[p.at], p.short, attr, clus, size)
    && forall i {:trigger es[i]} :: 0 <= i < |es| && i != p.at ==> Matches(es[i], p.cells[i])
  }

  /** What `DirAddEntry` does when the name is empty: no records, and a short entry of blanks, or numbered. */
  method DirAddNameless(vol: Volume, dirCluster: nat, attr: Byte, clus: nat, size: nat, ghost ch: seq<nat>, ghost cells: seq<Cell>)
    returns (ok: bool, pos: DirPos, ghost p: Placement)
    requires Open(vol, ch, cells) && dirCluster == ch[0] && vol.g.secPerClus >= 2
    requires attr in {ATTR_DIR, ATTR_ARCHIVE} && clus < U32 && size < U32
    modifies vol.Repr()
    ensures vol.Valid()
    ensures !ok ==> vol.view == old(vol.view) && vol.history == old(vol.history)
    ensures !ok ==> !HasRoom(cells, 1) && forall x {:trigger vol.view.fat[x]} :: 2 <= x < |vol.view.fat| ==> vol.view.fat[x] != FREE
    ensures ok ==> IsChain(vol.g, vol.view.fat, p.ch) && ch <= p.ch && At(vol.g, p.ch, p.at, pos)
    ensures ok ==> NamelessAt(Dir(vol.view.data, p.ch), p, attr, clus, size)
    ensures ok ==> ShortFor([], Shorts(cells), p.short)
    ensures ok && Make83([]) !in Shorts(cells) ==> p.short == seq(11, _ => SPACE)
    ensures old(vol.history) <= vol.history
  {
    hide Sees, Mirrored, Mul, Quot, Rem, ChainSectors, At, IsChain, Dir, WellRun, AllMatch, Volume.HistoryIsTrace;
    hide LinkedFat, Make83, Numbered, Shorts, Grown, Variants, HasRoom, RoomAt, GrowthPassed, StoredEntry, Matches;
    var name83 := Make83Unique(vol, dirCluster, [], ch, cells);
    NamelessShort(Shorts(cells), name83);
    SomeNameStorable();
    var start;
    ok, start, p := FindRoom(vol, dirCluster, [], ch, cells);
    if !ok {
      return false, start, p;
    }
    p := p.(short := name83);
    ghost var was := vol.view;
    var e := BuildEntry83(name83, attr, clus, size, [65]);
    OpenLength(vol, p.ch, p.cells);
    pos := start;
    DirWriteEntry(vol, pos, e, p.ch, p.at);
    StoredEntryEffect(vol.g, was, p.ch, p.at, e);
    NamelessStored(Dir(was.data, p.ch), p, e, attr, clus, size);
  }

  /** The short forms for an empty name. */
  lemma NamelessShort(taken: set<Short>, short: Short)
    requires ShortFor([], taken, short)
    ensures short[0] !in {0, DELETED, DOT}
    ensures Make83([]) == seq(11, _ => SPACE)
  {
    assert Stem([], 8) == [] && Extension([]) == [];
    if n :| 1 <= n <= 9999 && short == Numbered([], n) {
      assert NumberedBase([], n)[0] == TILDE;
      assert short[0] == Pad(NumberedBase([], n), 8)[0];
    }
  }

  lemma SomeNameStorable()
    ensures Storable([65])
  {
    assert Stem([65], 8) == [65];
  }

  lemma NamelessStored(es: seq<Entry>, p: Placement, e: Entry, attr: Byte, clus: nat, size: nat)
    requires AllMatch(es, p.cells) && WellRun(p.cells) && Fitting(p, []) && Matches(e, Entry83([65], p.short, attr, clus, size))
    requires p.at < |es|
    ensures NamelessAt(es[p.at := e], p, attr, clus, size)
  {
    hide WellRun;
    assert Parts([]) == 0;
  }

  /** No well-formed directory reads like that: the driver finds the entry under no name. */
  lemma NobodyListsNameless(es: seq<Entry>, p: Placement, attr: Byte, clus: nat, size: nat, cells: seq<Cell>)
    requires NamelessAt(es, p, attr, clus, size)
    ensures !(AllMatch(es, cells) && WellRun(cells))
  {
    var k := p.at;
    assert k > 0 ==> WellPlaced(p.cells, k - 1) && Matches(es[k - 1], p.cells[k - 1]);
    assert WellRun(cells) && k < |cells| ==> WellPlaced(cells, k);
    assert AllMatch(es, cells) ==> Matches(es[k], cells[k]);
  }
}

/** The boot-time checker on a volume the driver wrote: it finds nothing and writes nothing. */
module Fsck {
  import opened Bytes
  import opened Layout
  import opened Chains
  import opened Volumes
  import opened Names
  import opened LongNames
  import opened ChainData
  import opened Cells
  import opened Directories
  import opened Catalogs
  import Files
  import opened TreeChanges
  import opened Marks
  import opened Repairs

  // ---- One entry ----

  /** What the checker remembers of the long-name records before an entry. */
  datatype Automaton = Automaton(building: bool, expected: int, sum: Byte, start: nat)

  const IDLE := Automaton(false, 0, 0, 0)

  /** In the middle of a run the automaton knows its place in the run, its checksum, and the number of the entry it began with;
      elsewhere it is idle. */
  ghost predicate Tracks(s: Automaton, cells: seq<Cell>, k: nat)
    requires k <= |cells|
  {
    if k > 0 && cells[k - 1].Part? then
      var c := cells[k - 1];
      s.building && s.expected == c.j && s.sum == Checksum(c.short) && s.start + Parts(c.name) - c.j == k - 1
    else !s.building
  }

  /** The entries are as the driver writes them. */
  ghost predicate AsWritten(g: Geometry, cells: seq<Cell>, k: nat, e: Entry) {
    && WellRun(cells) && k < |cells| && Matches(e, cells[k])
    && (cells[k].Entry83? ==> g.IsCluster(cells[k].clus))
    && (cells[k].Dot? ==> cells[k].clus == 0 || g.IsCluster(cells[k].clus))
  }

  /** The record is the last part of a name, and so the first one on the disk. */
  predicate StartsRun(e: Entry) {
    e[0] / 64 % 2 == 1
  }

  /** The record is the one before the last one seen, of the same name. */
  predicate ContinuesRun(e: Entry, s: Automaton) {
    s.building && e[0] % 32 == s.expected - 1 && e[13] == s.sum
  }

  predicate IsLabel(e: Entry) {
    e[11] / 8 % 2 == 1
  }

  predicate IsDots(e: Entry) {
    e[0] == DOT && (e[1] == SPACE || e[1] == DOT)
  }

  /** A first cluster an entry may have: none, or one of the volume's. */
  predicate InVolume(g: Geometry, c: nat) {
    c == 0 || g.IsCluster(c)
  }

  /** The checks of one entry in use: long-name records, the attribute byte, the first cluster.  `first` is the chain
      the entry claims, or 0. */
  method Examine(g: Geometry, e: Entry, s: Automaton, entryIdx: nat, ghost cells: seq<Cell>)
    returns (s': Automaton, orphans: nat, invalid: nat, first: nat)
    requires e[0] != 0
    ensures orphans <= 1 && invalid <= 1
    ensures e[0] == DELETED ==> orphans == 0 && invalid == 0 && first == 0 && !s'.building
    ensures e[0] != DELETED && e[11] == ATTR_LFN ==>
              && invalid == 0 && first == 0
              && (orphans == 1 <==> !StartsRun(e) && !ContinuesRun(e, s))
              && (orphans == 1 ==> !s'.building)
              && (orphans == 0 ==> s' == Automaton(true, e[0] % 32, e[13], if StartsRun(e) then entryIdx else s.start))
    ensures e[0] != DELETED && e[11] != ATTR_LFN ==>
              && (orphans == 1 <==> s.building && !(s.expected == 1 && s.sum == Checksum(e[..11])))
              && (invalid == 1 <==> e[11] >= 64 || (!IsLabel(e) && !InVolume(g, EntryCluster(e))))
              && first == (if invalid == 0 && !IsLabel(e) && !IsDots(e) then EntryCluster(e) else 0)
              && !s'.building
    ensures AsWritten(g, cells, entryIdx, e) && Tracks(s, cells, entryIdx) ==>
              && orphans == 0 && invalid == 0 && Tracks(s', cells, entryIdx + 1)
              && first == (if cells[entryIdx].Entry83? then cells[entryIdx].clus else 0)
  {
    hide IsRecord, Storable;
    ghost var k := entryIdx;
    if AsWritten(g, cells, k, e) {
      CellKind(cells, k, e);
      assert WellPlaced(cells, k);
      if k > 0 {
        assert WellPlaced(cells, k - 1);
      }
    }
    s', orphans, invalid, first := s, 0, 0, 0;
    if e[0] == DELETED {
      s' := IDLE;
      return;
    }
    var attr := e[11];
    if attr == ATTR_LFN {
      s', orphans := ExamineRecord(e, s, entryIdx);
      return;
    }
    if s.building {
      if s.expected != 1 {
        orphans := 1;
      } else {
        var computed := LfnChecksum(e[..11]);
        if computed != s.sum {
          orphans := 1;
        }
      }
      s' := IDLE;
    }
    if attr >= 64 {
      invalid := 1;
      return;
    }
    if attr / 8 % 2 == 1 {
      return;
    }
    var cluster := EntryCluster(e);
    if cluster == 1 || cluster >= g.totalClusters + 2 {
      invalid := 1;
      return;
    }
    if e[0] == DOT && (e[1] == SPACE || e[1] == DOT) {
      return;
    }
    first := cluster;
  }

  /** The long-name part of the checks. */
  method ExamineRecord(e: Entry, s: Automaton, entryIdx: nat) returns (s': Automaton, orphans: nat)
    ensures orphans == (if StartsRun(e) || ContinuesRun(e, s) then 0 else 1)
    ensures orphans == 0 ==> s' == Automaton(true, e[0] % 32, e[13], if StartsRun(e) then entryIdx else s.start)
    ensures orphans == 1 ==> !s'.building
  {
    orphans := 0;
    s' := s;
    if e[0] / 64 % 2 == 1 {
      s' := Automaton(true, e[0] % 32, e[13], entryIdx);
    } else if !s.building {
      orphans := 1;
    } else if e[0] % 32 != s.expected - 1 {
      orphans := 1;
      s' := IDLE;
    } else if e[13] != s.sum {
      orphans := 1;
      s' := IDLE;
    } else {
      s' := s.(expected := e[0] % 32);
    }
  }

  /** The records in front of a short entry are not those of its name. */
  predicate RunBroken(e: Entry, s: Automaton) {
    s.building && !(s.expected == 1 && s.sum == Checksum(e[..11]))
  }

  /** A short entry that no volume has: unknown attribute bits, or a chain from outside. */
  predicate NotAnEntry(g: Geometry, e: Entry) {
    e[11] >= 64 || (!IsLabel(e) && !InVolume(g, EntryCluster(e)))
  }

  /** The checks of one entry in use and what is written then, on any disk.  A record that neither begins nor continues a run
      is marked deleted; at a short entry the records in front of it, if they are not its own, and then the entry, if it is
      none.  `mid` is the disk between these two. */
  method CheckEntry(vol: Volume, it: DirPos, e: Entry, s: Automaton, dirCluster: nat, entryIdx: nat, ghost cells: seq<Cell>)
    returns (s': Automaton, orphans: nat, invalid: nat, first: nat, failures: nat, ghost mid: Image)
    requires Idle(vol) && IterReady(vol.g, it) && dirCluster >= 2 && e[0] != 0 && (s.building ==> entryIdx > 0)
    modifies vol`cacheDirty, vol`cacheLba, vol.cache, vol.disk, vol.disk.sectors
    ensures Idle(vol) && old(vol.disk.trace) <= vol.disk.trace
    ensures e[0] == DELETED || (e[11] == ATTR_LFN && (StartsRun(e) || ContinuesRun(e, s))) ==> failures == 0 && NothingWritten(vol)
    ensures e[0] != DELETED && e[11] == ATTR_LFN && !StartsRun(e) && !ContinuesRun(e, s) ==>
              MarkedDeleted(old(vol.disk.sectors[..]), it, vol.disk.sectors[..], failures)
    ensures e[0] != DELETED && e[11] != ATTR_LFN && !RunBroken(e, s) ==> mid == old(vol.disk.sectors[..])
    ensures e[0] != DELETED && e[11] != ATTR_LFN && RunBroken(e, s) ==>
              && RangeMarked(vol.g, old(vol.disk.sectors[..]), dirCluster, s.start, entryIdx - 1, mid)
              && (old(vol.Valid()) ==>
                    InOrderRange(vol.g, vol.view.fat, dirCluster, s.start, entryIdx - 1, old(vol.disk.sectors[..]), mid))
    ensures e[0] != DELETED && e[11] != ATTR_LFN ==>
              if NotAnEntry(vol.g, e) then MarkedDeleted(mid, it, vol.disk.sectors[..], failures)
              else vol.disk.sectors[..] == mid && failures == 0
    ensures AsWritten(vol.g, cells, entryIdx, e) && Tracks(s, cells, entryIdx) ==>
              && orphans == 0 && invalid == 0 && failures == 0 && NothingWritten(vol) && Tracks(s', cells, entryIdx + 1)
              && first == (if cells[entryIdx].Entry83? then cells[entryIdx].clus else 0)
  {
    hide Sees, Mirrored, MarkedDeleted, RangeMarked, InOrderRange, AsWritten, Tracks, StartsRun, ContinuesRun;
    s', orphans, invalid, first := Examine(vol.g, e, s, entryIdx, cells);
    ghost var failed;
    failures, mid, failed := RepairEntry(vol, it, e, orphans, invalid, dirCluster, s.start, entryIdx);
  }

  // ---- The tree ----

  /** The number of the entry of directory `d` under which the chain `h` is found, however deep below it; -1 if it is
      not below `d`. */
  ghost function Via(cat: Catalog, h: nat, d: nat): int
    decreases if h in cat.dirs then 0 else 1, if h in cat.depth then cat.depth[h] else 0
  {
    if h !in cat.owner then -1
    else
      var r := cat.owner[h];
      if r.dir == d then r.idx
      else if r.dir in cat.dirs && r.dir in cat.depth
              && (h in cat.dirs ==> h in cat.depth && cat.depth[r.dir] < cat.depth[h]) then
        Via(cat, r.dir, d)
      else -1
  }

  /** What one owner says about its chain's place in the tree. */
  lemma OneUp(g: Geometry, cat: Catalog, h: nat)
    requires TreeOk(g, cat, {}, {}) && h in cat.owner
    ensures var r := cat.owner[h];
      && r.dir in cat.dirs && r.dir in cat.depth && r.idx < |cat.dirs[r.dir]| && cat.dirs[r.dir][r.idx].Entry83?
      && cat.dirs[r.dir][r.idx].clus == h
      && (h in cat.dirs ==> h in cat.depth && cat.depth[h] == cat.depth[r.dir] + 1)
      && (r.dir == g.rootCluster || r.dir in cat.owner)
  {
    Files.OwnerDir(g, cat, {}, {}, h);
  }

  /** Going up leads to smaller depths. */
  lemma {:induction false} ViaDeeper(g: Geometry, cat: Catalog, h: nat, d: nat)
    requires TreeOk(g, cat, {}, {}) && h in cat.dirs && Via(cat, h, d) >= 0
    ensures d in cat.dirs && d in cat.depth && h in cat.depth && cat.depth[d] < cat.depth[h]
    decreases cat.depth[h]
  {
    hide TreeOk;
    OneUp(g, cat, h);
    if cat.owner[h].dir != d {
      ViaDeeper(g, cat, cat.owner[h].dir, d);
    }
  }

  /** Every owned chain is below the root. */
  lemma {:induction false} ViaRoot(g: Geometry, cat: Catalog, h: nat)
    requires TreeOk(g, cat, {}, {}) && h in cat.owner
    ensures Via(cat, h, g.rootCluster) >= 0
    decreases if h in cat.dirs then 0 else 1, if h in cat.depth then cat.depth[h] else 0
  {
    hide TreeOk;
    OneUp(g, cat, h);
    if cat.owner[h].dir != g.rootCluster {
      ViaRoot(g, cat, cat.owner[h].dir);
    }
  }

  /** What is below a subdirectory is below its directory, under the subdirectory's entry. */
  lemma {:induction false} ViaStep(g: Geometry, cat: Catalog, h: nat, e: nat, d: nat)
    requires TreeOk(g, cat, {}, {}) && e in cat.dirs && e in cat.owner && cat.owner[e].dir == d && Via(cat, h, e) >= 0
    ensures Via(cat, h, d) == cat.owner[e].idx
    decreases if h in cat.dirs then 0 else 1, if h in cat.depth then cat.depth[h] else 0
  {
    hide TreeOk;
    OneUp(g, cat, h);
    OneUp(g, cat, e);
    var up := cat.owner[h].dir;
    if up != e {
      ViaStep(g, cat, up, e, d);
      ViaDeeper(g, cat, up, e);
    }
  }

  /** What is found under an entry is the entry's own chain, or below it. */
  lemma {:induction false} ViaSplit(g: Geometry, cat: Catalog, h: nat, d: nat)
    requires TreeOk(g, cat, {}, {}) && Via(cat, h, d) >= 0
    ensures var k := Via(cat, h, d);
      && d in cat.dirs && k < |cat.dirs[d]| && cat.dirs[d][k].Entry83?
      && (h == cat.dirs[d][k].clus || (cat.dirs[d][k].clus in cat.dirs && Via(cat, h, cat.dirs[d][k].clus) >= 0))
    decreases if h in cat.dirs then 0 else 1, if h in cat.depth then cat.depth[h] else 0
  {
    hide TreeOk;
    OneUp(g, cat, h);
    if cat.owner[h].dir != d {
      ViaSplit(g, cat, cat.owner[h].dir, d);
    }
  }

  // ---- The walk ----

  /** Every directory ends in an unused entry. */
  ghost predicate Terminated(cat: Catalog) {
    forall d {:trigger cat.dirs[d]} :: d in cat.dirs ==> |cat.dirs[d]| > 0 && cat.dirs[d][|cat.dirs[d]| - 1].Unused?
  }

  /** Directories with entries are at most 32 levels below the root. */
  ghost predicate Shallow(cat: Catalog) {
    forall d, k {:trigger cat.dirs[d][k]} :: d in cat.dirs && d in cat.depth && cat.depth[d] > 32 && 0 <= k < |cat.dirs[d]| ==>
      !cat.dirs[d][k].Entry83?
  }

  /** Exactly the clusters of the chains in `done` are marked. */
  ghost predicate MarksAre(g: Geometry, cat: Catalog, done: set<nat>, reach: seq<bool>) {
    && |reach| == g.totalClusters
    && forall c: nat {:trigger IsMarked(reach, c)} {:trigger c in cat.place} :: g.IsCluster(c) ==>
         (IsMarked(reach, c) <==> c in cat.place && cat.place[c].head in done)
  }

  /** The chains claimed once the entries before number `k` of directory `d` were dealt with. */
  ghost function DoneBefore(cat: Catalog, done: set<nat>, d: nat, k: int): set<nat> {
    done + {d} + set h | h in cat.owner && 0 <= Via(cat, h, d) < k
  }

  /** None of the chains below `d` is in `done`. */
  ghost predicate NotYet(cat: Catalog, done: set<nat>, d: nat) {
    forall h {:trigger h in done} {:trigger Via(cat, h, d)} :: Via(cat, h, d) >= 0 ==> h !in done
  }

  /** What an entry brings in: its chain, and what is below it. */
  lemma EntryBrings(g: Geometry, cat: Catalog, done: set<nat>, d: nat, k: nat)
    requires TreeOk(g, cat, {}, {}) && d in cat.dirs && k < |cat.dirs[d]| && cat.dirs[d][k].Entry83? && NotYet(cat, done, d)
    ensures var e := cat.dirs[d][k].clus;
      && e in cat.owner && e in cat.chains && e != d && e !in DoneBefore(cat, done, d, k)
      && (e in cat.dirs <==> cat.dirs[d][k].attr == ATTR_DIR)
      && (e in cat.dirs ==> d in cat.depth && e in cat.depth && cat.depth[e] == cat.depth[d] + 1)
      && NotYet(cat, DoneBefore(cat, done, d, k) + {e}, e)
      && DoneBefore(cat, done, d, k + 1) ==
           DoneBefore(cat, done, d, k) + {e} + (if e in cat.dirs then set h | h in cat.owner && Via(cat, h, e) >= 0 else {})
  {
    var e := cat.dirs[d][k].clus;
    EntryOwns(g, cat, {}, d, k);
    assert cat.owner[e] == Ref(d, k);
    OneUp(g, cat, e);
    hide TreeOk, Via, RefOk;
    forall h
      ensures Via(cat, h, e) >= 0 ==> h in cat.owner && Via(cat, h, d) == k && h != e && h != d && e in cat.dirs
      ensures Via(cat, h, d) == k ==> h in cat.owner && (h == e || (e in cat.dirs && Via(cat, h, e) >= 0))
    {
      EntryBringsOne(g, cat, d, k, e, h);
    }
    ViaAt(cat, e, d);
    DoneGrows(cat, done, d, k, e);
    NothingBelowYet(cat, done, d, k, e);
  }

  lemma ViaAt(cat: Catalog, e: nat, d: nat)
    ensures e in cat.owner && cat.owner[e].dir == d ==> Via(cat, e, d) == cat.owner[e].idx
  {
  }

  /** The chains claimed before the next entry are those claimed before this one, its own, and those below it. */
  lemma DoneGrows(cat: Catalog, done: set<nat>, d: nat, k: nat, e: nat)
    requires Via(cat, e, d) == k && e in cat.owner
    requires forall h {:trigger Via(cat, h, e)} :: Via(cat, h, e) >= 0 ==> Via(cat, h, d) == k
    requires forall h {:trigger Via(cat, h, d)} :: Via(cat, h, d) == k ==> h == e || (e in cat.dirs && Via(cat, h, e) >= 0)
    requires forall h {:trigger Via(cat, h, e)} :: Via(cat, h, e) >= 0 ==> e in cat.dirs
    ensures DoneBefore(cat, done, d, k + 1) ==
              DoneBefore(cat, done, d, k) + {e} + (if e in cat.dirs then set h | h in cat.owner && Via(cat, h, e) >= 0 else {})
  {
    hide Via;
    var below := if e in cat.dirs then set h | h in cat.owner && Via(cat, h, e) >= 0 else {};
    forall h
      ensures h in DoneBefore(cat, done, d, k + 1) <==> h in DoneBefore(cat, done, d, k) + {e} + below
    {
    }
  }

  lemma NothingBelowYet(cat: Catalog, done: set<nat>, d: nat, k: nat, e: nat)
    requires NotYet(cat, done, d) && Via(cat, e, d) == k && e != d
    requires forall h {:trigger Via(cat, h, e)} :: Via(cat, h, e) >= 0 ==> Via(cat, h, d) == k && h != e && h != d
    ensures e !in DoneBefore(cat, done, d, k) && NotYet(cat, DoneBefore(cat, done, d, k) + {e}, e)
  {
    hide Via;
  }

  lemma EntryBringsOne(g: Geometry, cat: Catalog, d: nat, k: nat, e: nat, h: nat)
    requires TreeOk(g, cat, {}, {}) && e in cat.owner && cat.owner[e] == Ref(d, k) && d in cat.dirs && k < |cat.dirs[d]|
    requires cat.dirs[d][k].Entry83? && cat.dirs[d][k].clus == e
    ensures Via(cat, h, e) >= 0 ==> h in cat.owner && Via(cat, h, d) == k && h != e && h != d && e in cat.dirs
    ensures Via(cat, h, d) == k ==> h in cat.owner && (h == e || (e in cat.dirs && Via(cat, h, e) >= 0))
  {
    hide TreeOk;
    OneUp(g, cat, e);
    if Via(cat, h, e) >= 0 {
      ViaSplit(g, cat, h, e);
      ViaStep(g, cat, h, e, d);
      if h in cat.dirs {
        ViaDeeper(g, cat, h, e);
      }
    }
    if Via(cat, h, d) == k {
      ViaSplit(g, cat, h, d);
    }
  }

  /** Places without a short entry bring in nothing. */
  lemma OthersBringNothing(g: Geometry, v: View, cat: Catalog, done: set<nat>, d: nat, k: nat)
    requires Consistent(g, v, cat) && d in cat.dirs && k < |cat.dirs[d]| && !cat.dirs[d][k].Entry83?
    ensures DoneBefore(cat, done, d, k + 1) == DoneBefore(cat, done, d, k)
  {
    hide TreeOk, TableOk, DirsOk, Orderly, Via;
    forall h | h in cat.owner
      ensures Via(cat, h, d) != k
    {
      if Via(cat, h, d) == k {
        ViaSplit(g, cat, h, d);
      }
    }
  }

  /** Behind the last entry there is nothing more to claim. */
  lemma RestBringsNothing(g: Geometry, cat: Catalog, done: set<nat>, d: nat, k: nat)
    requires TreeOk(g, cat, {}, {}) && d in cat.dirs && k <= |cat.dirs[d]|
    requires forall i {:trigger cat.dirs[d][i]} :: k <= i < |cat.dirs[d]| ==> !cat.dirs[d][i].Entry83?
    ensures DoneBefore(cat, done, d, k) == done + {d} + set h | h in cat.owner && Via(cat, h, d) >= 0
  {
    hide TreeOk;
    forall h | h in cat.owner && Via(cat, h, d) >= 0
      ensures Via(cat, h, d) < k
    {
      ViaSplit(g, cat, h, d);
    }
  }

  /** A chain that was claimed joins the marked ones. */
  lemma ChainMarked(g: Geometry, v: View, cat: Catalog, done: set<nat>, h: nat, dir: nat, entry: nat,
                    reach0: seq<bool>, reach: seq<bool>, refs: seq<ClusRef>)
    requires g.Valid() && Sound(g, v, cat, {}, {}) && h in cat.chains && MarksAre(g, cat, done, reach0)
    requires |reach| == |reach0|
    requires forall c: nat {:trigger IsMarked(reach, c)} :: IsMarked(reach0, c) ==> IsMarked(reach, c)
    requires forall c: nat {:trigger IsMarked(reach, c)} :: IsMarked(reach, c) ==>
               IsMarked(reach0, c) || (Reachable(g, v.fat, h, c) && HasKey(refs, c, dir, entry))
    requires AllClaimed(g, v.fat, h, reach, refs, dir, entry)
    ensures MarksAre(g, cat, done + {h}, reach)
  {
    hide Linked, InUse, TreeOk, DirsOk, Nth, Reachable, Homed;
    ChainOf(g, v.fat, cat, h);
    forall c: nat | g.IsCluster(c)
      ensures Reachable(g, v.fat, h, c) <==> c in cat.place && cat.place[c].head == h
    {
      ReachableInChain(g, v.fat, cat.chains[h], c);
      InChainPlaced(g, cat.chains, cat.place, h, c);
    }
  }

  lemma InChainPlaced(g: Geometry, chains: ChainMap, place: Places, h: nat, c: nat)
    requires Homed(g, chains, place) && h in chains
    ensures c in chains[h] <==> c in place && place[c].head == h
  {
    if c in chains[h] {
      var i :| 0 <= i < |chains[h]| && chains[h][i] == c;
      PlaceOf(g, chains, place, h, i);
    }
  }

  /** A chain that was not claimed has no mark. */
  lemma ChainUntouched(g: Geometry, v: View, cat: Catalog, done: set<nat>, h: nat, reach: seq<bool>)
    requires g.Valid() && Sound(g, v, cat, {}, {}) && h in cat.chains && h !in done && MarksAre(g, cat, done, reach)
    ensures Untouched(g, v.fat, h, reach)
  {
    hide Linked, InUse, TreeOk, DirsOk, Nth, Reachable, Homed;
    ChainOf(g, v.fat, cat, h);
    forall c: nat | IsMarked(reach, c)
      ensures !Reachable(g, v.fat, h, c)
    {
      ReachableInChain(g, v.fat, cat.chains[h], c);
      InChainPlaced(g, cat.chains, cat.place, h, c);
    }
  }

  /** What holds of the volume all through the check. */
  ghost predicate Checked(vol: Volume, cat: Catalog)
    reads vol.Repr()
  {
    && vol.Valid() && Consistent(vol.g, vol.view, cat) && Terminated(cat) && Shallow(cat)
  }

  /** What the checker counts, and how many of its repairs failed. */
  datatype Stats = Stats(mismatches: nat, orphanLfn: nat, orphans: nat, crosslinks: nat, invalid: nat, failures: nat)
  {
    function Errors(): nat {
      mismatches + orphans + crosslinks + invalid + orphanLfn
    }
  }

  const NO_ERRORS := Stats(0, 0, 0, 0, 0, 0)

  /** The walk of a directory, and of what is below it.  On a volume the driver wrote nothing is counted, nothing is
      repaired, and exactly the chains of the directory and of what is below it get marked. */
  method WalkDir(vol: Volume, dirCluster: nat, depth: nat, reach: array<bool>, refs: array<ClusRef>, stats0: Stats,
                 ghost cat: Catalog, ghost done: set<nat>)
    returns (stats: Stats, ghost done': set<nat>)
    requires Checked(vol, cat) && dirCluster in cat.dirs && dirCluster in cat.depth && cat.depth[dirCluster] == depth
    requires reach.Length == refs.Length == vol.g.totalClusters
    requires MarksAre(vol.g, cat, done, reach[..]) && NotYet(cat, done, dirCluster)
    requires dirCluster in done || depth == 0
    modifies vol`cacheDirty, vol`cacheLba, vol.cache, vol.disk, vol.disk.sectors, reach, refs
    ensures Checked(vol, cat)
    ensures stats == stats0
    ensures done' == done + {dirCluster} + set h | h in cat.owner && Via(cat, h, dirCluster) >= 0
    ensures MarksAre(vol.g, cat, done', reach[..])
    decreases 34 - depth
  {
    hide Sees, Mirrored, Volume.HistoryIsTrace, Sound, At, Dir, Via, Untouched, AllClaimed, Matches, Mul, IsChain, MarksAre;
    hide NotYet, Shallow, Terminated, DoneBefore, WellRun, AllMatch, StepsFrom, Geometry.ClusterLba, EditPlace, Edited;
    stats := stats0;
    if depth > 32 {
      DeepIsEmpty(vol.g, vol.view, cat, done, dirCluster);
      return stats, done + {dirCluster};
    }
    DirReady(vol.g, vol.view, cat, {}, {}, dirCluster);
    ghost var ch, cells := cat.chains[dirCluster], cat.dirs[dirCluster];
    ghost var reach0 := reach[..];
    var _ := MarkChain(vol, reach, refs, dirCluster, dirCluster, 0);
    ChainMarked(vol.g, vol.view, cat, done, dirCluster, dirCluster, 0, reach0, reach[..], refs[..]);
    StartWalk(cat, done, dirCluster);
    OpenLength(vol, ch, cells);
    var entryIdx := 0;
    var lfn := IDLE;
    var it := DirPosInit(vol.g, dirCluster);
    InitReady(vol.g, dirCluster);
    while true
      invariant Checked(vol, cat) && entryIdx < |cells| && At(vol.g, ch, entryIdx, it) && IterReady(vol.g, it)
      invariant stats == stats0 && Tracks(lfn, cells, entryIdx)
      invariant MarksAre(vol.g, cat, DoneBefore(cat, done, dirCluster, entryIdx), reach[..])
      decreases |cells| - entryIdx
    {
      var ok, e, next := DirIterNext(vol, it, ch, entryIdx);
      EntryRead(vol.g, vol.view, cat, dirCluster, entryIdx);
      if !ok || e[0] == 0 {
        break;
      }
      BuildingLater(lfn, cells, entryIdx);
      var o, i, first, failed;
      ghost var mid;
      lfn, o, i, first, failed, mid := CheckEntry(vol, next, e, lfn, dirCluster, entryIdx, cells);
      stats := stats.(orphanLfn := stats.orphanLfn + o, invalid := stats.invalid + i, failures := stats.failures + failed);
      if first != 0 {
        stats := ClaimEntry(vol, e, first, dirCluster, depth, entryIdx, reach, refs, stats, cat, done);
      } else {
        OthersBringNothing(vol.g, vol.view, cat, done, dirCluster, entryIdx);
      }
      NotLast(vol.g, vol.view, cat, dirCluster, entryIdx);
      StepsTo(vol.g, vol.view.fat, ch, entryIdx, it, next);
      it := next;
      entryIdx := entryIdx + 1;
    }
    done' := DoneBefore(cat, done, dirCluster, entryIdx);
    WalkEnds(vol.g, vol.view, cat, done, dirCluster, entryIdx);
  }

  lemma BuildingLater(s: Automaton, cells: seq<Cell>, k: nat)
    requires k <= |cells| && Tracks(s, cells, k)
    ensures s.building ==> k > 0
  {
  }

  lemma StepsTo(g: Geometry, fat: seq<nat>, ch: seq<nat>, k: nat, it: DirPos, it': DirPos)
    requires g.secPerClus > 0 && StepsFrom(g, fat, ch, k, it, it') && k + 1 < PER_SECTOR * Mul(|ch|, g.secPerClus)
    ensures At(g, ch, k + 1, it')
  {
    hide At, Mul;
  }

  /** Claims an entry's chain, and takes it away from the entry if it has run into another one's; on any table. */
  method ClaimChain(vol: Volume, reach: array<bool>, refs: array<ClusRef>, start: nat, dirCluster: nat, entryIdx: nat)
    returns (crosslinks: nat, failures: nat)
    requires vol.Valid() && reach.Length == refs.Length == vol.g.totalClusters && dirCluster >= 2
    modifies vol`cacheDirty, vol`cacheLba, vol.cache, vol.disk, vol.disk.sectors, reach, refs
    ensures crosslinks == 0 ==> failures == 0 && vol.Valid()
    ensures crosslinks > 0 ==>
              && EntryDetached(vol.g, old(vol.disk.sectors[..]), dirCluster, entryIdx, failures == 0, vol.disk.sectors[..])
              && InOrderDetached(vol.g, vol.view.fat, dirCluster, entryIdx, old(vol.disk.sectors[..]), failures == 0,
                                 vol.disk.sectors[..])
    ensures start != dirCluster ==>
              (crosslinks > 0 <==>
                 Stumbles(vol.g, vol.view.fat, start, old(reach[..]), old(refs[..]), dirCluster, entryIdx))
    ensures forall c: nat {:trigger IsMarked(reach[..], c)} :: IsMarked(old(reach[..]), c) ==> IsMarked(reach[..], c)
    ensures forall c: nat {:trigger IsMarked(reach[..], c)} :: IsMarked(reach[..], c) ==>
              IsMarked(old(reach[..]), c) || (Reachable(vol.g, vol.view.fat, start, c) && HasKey(refs[..], c, dirCluster, entryIdx))
    ensures start == dirCluster || Untouched(vol.g, vol.view.fat, start, old(reach[..])) ==>
              crosslinks == 0 && AllClaimed(vol.g, vol.view.fat, start, reach[..], refs[..], dirCluster, entryIdx)
  {
    hide Sees, Mirrored, Volume.HistoryIsTrace, Untouched, AllClaimed, Stumbles, Reachable, HasKey, EntryDetached, InOrderDetached;
    ghost var img := vol.disk.sectors[..];
    crosslinks := MarkChain(vol, reach, refs, start, dirCluster, entryIdx);
    failures := DetachIfCrossed(vol, crosslinks, dirCluster, entryIdx);
  }

  /** The part of the walk that claims an entry's chain, takes it away from an entry that has run into another one's, and
      goes down if it is a directory. */
  method ClaimEntry(vol: Volume, e: Entry, first: nat, dirCluster: nat, depth: nat, entryIdx: nat,
                    reach: array<bool>, refs: array<ClusRef>, stats0: Stats, ghost cat: Catalog, ghost done: set<nat>)
    returns (stats: Stats)
    requires Checked(vol, cat) && dirCluster in cat.dirs && dirCluster in cat.depth && cat.depth[dirCluster] == depth <= 32
    requires entryIdx < |cat.dirs[dirCluster]| && cat.dirs[dirCluster][entryIdx].Entry83? && dirCluster >= 2
    requires Matches(e, cat.dirs[dirCluster][entryIdx]) && first == cat.dirs[dirCluster][entryIdx].clus
    requires reach.Length == refs.Length == vol.g.totalClusters && NotYet(cat, done, dirCluster)
    requires MarksAre(vol.g, cat, DoneBefore(cat, done, dirCluster, entryIdx), reach[..])
    modifies vol`cacheDirty, vol`cacheLba, vol.cache, vol.disk, vol.disk.sectors, reach, refs
    ensures Checked(vol, cat)
    ensures stats == stats0
    ensures MarksAre(vol.g, cat, DoneBefore(cat, done, dirCluster, entryIdx + 1), reach[..])
    decreases 34 - depth, 0
  {
    hide Sees, Mirrored, Volume.HistoryIsTrace, At, Dir, Via, Untouched, AllClaimed, Matches, Mul, IsChain, MarksAre;
    hide NotYet, Shallow, Terminated, DoneBefore, WellRun, AllMatch, TableOk, DirsOk, EntriesOwn, OwnersAreEntries;
    ghost var before := DoneBefore(cat, done, dirCluster, entryIdx);
    EntryBrings(vol.g, cat, done, dirCluster, entryIdx);
    CellCluster(e, cat.dirs[dirCluster][entryIdx]);
    ChainUntouched(vol.g, vol.view, cat, before, first, reach[..]);
    ghost var reach0 := reach[..];
    var crosslinks, failed := ClaimChain(vol, reach, refs, first, dirCluster, entryIdx);
    ChainMarked(vol.g, vol.view, cat, before, first, dirCluster, entryIdx, reach0, reach[..], refs[..]);
    stats := stats0.(crosslinks := stats0.crosslinks + crosslinks, failures := stats0.failures + failed);
    if e[11] / 16 % 2 == 1 {
      ghost var after;
      stats, after := WalkDir(vol, first, depth + 1, reach, refs, stats, cat, before + {first});
      assert after == DoneBefore(cat, done, dirCluster, entryIdx + 1);
    } else {
      assert before + {first} == DoneBefore(cat, done, dirCluster, entryIdx + 1);
    }
  }

  lemma DeepIsEmpty(g: Geometry, v: View, cat: Catalog, done: set<nat>, d: nat)
    requires g.Valid() && Consistent(g, v, cat) && Shallow(cat) && d in cat.dirs && d in done && cat.depth[d] > 32
    ensures done + {d} == done
    ensures (set h | h in cat.owner && Via(cat, h, d) >= 0) == {}
  {
    hide TableOk, DirsOk, Orderly, Via;
    forall h | h in cat.owner
      ensures Via(cat, h, d) < 0
    {
      if Via(cat, h, d) >= 0 {
        ViaSplit(g, cat, h, d);
      }
    }
  }

  lemma StartWalk(cat: Catalog, done: set<nat>, d: nat)
    ensures DoneBefore(cat, done, d, 0) == done + {d}
  {
    hide Via;
    assert (set h | h in cat.owner && 0 <= Via(cat, h, d) < 0) == {};
  }

  lemma EntryRead(g: Geometry, v: View, cat: Catalog, d: nat, k: nat)
    requires g.Valid() && Consistent(g, v, cat) && d in cat.dirs && k < |cat.dirs[d]|
    ensures d in cat.chains && k < |Dir(v.data, cat.chains[d])|
    ensures AsWritten(g, cat.dirs[d], k, Dir(v.data, cat.chains[d])[k])
    ensures Dir(v.data, cat.chains[d])[k][0] == 0 <==> cat.dirs[d][k].Unused?
    ensures cat.dirs[d][k].Entry83? ==> cat.dirs[d][k].clus >= 2
  {
    hide Linked, InUse, Dir, Matches, WellRun, Homed, OwnersAreEntries;
    DirReady(g, v, cat, {}, {}, d);
    CellKind(cat.dirs[d], k, Dir(v.data, cat.chains[d])[k]);
    EntryOwns(g, cat, {}, d, k);
    if cat.dirs[d][k].Entry83? {
      ChainOf(g, v.fat, cat, cat.dirs[d][k].clus);
    }
  }

  /** An entry in use is not the last one. */
  lemma NotLast(g: Geometry, v: View, cat: Catalog, d: nat, k: nat)
    requires g.Valid() && Consistent(g, v, cat) && Terminated(cat) && d in cat.dirs && k < |cat.dirs[d]|
    ensures !cat.dirs[d][k].Unused? ==> k + 1 < |cat.dirs[d]|
    ensures d in cat.chains && |cat.dirs[d]| == PER_SECTOR * Mul(|cat.chains[d]|, g.secPerClus)
  {
    hide TableOk, Dir, Matches, WellRun, Mul, TreeOk;
    DirReady(g, v, cat, {}, {}, d);
    ChainCovered(g, v, cat.chains[d]);
  }

  lemma WalkEnds(g: Geometry, v: View, cat: Catalog, done: set<nat>, d: nat, k: nat)
    requires g.Valid() && Consistent(g, v, cat) && d in cat.dirs && k < |cat.dirs[d]| && cat.dirs[d][k].Unused?
    ensures DoneBefore(cat, done, d, k) == done + {d} + set h | h in cat.owner && Via(cat, h, d) >= 0
  {
    hide TableOk, DirsOk, WellRun, TreeOk, Via, DoneBefore;
    assert WellRun(cat.dirs[d]);
    UnusedEnds(cat.dirs[d], k);
    RestBringsNothing(g, cat, done, d, k);
  }

  // ---- The five checks ----

  /** The first check between operations, when the tables agree. */
  method CheckTables(vol: Volume) returns (mismatches: nat)
    requires vol.Valid()
    modifies vol.disk, vol.disk.sectors
    ensures vol.Valid() && mismatches == 0 && vol.disk.trace == old(vol.disk.trace)
  {
    hide Sees, Mirrored, CopiedUpTo, Differing;
    if vol.g.numFats >= 2 {
      MirroredDiffersNowhere(vol.g, vol.disk.sectors[..]);
    }
    mismatches := CheckFatMismatch(vol.g, vol.disk);
  }

  /** The second check: the clusters in use that the walk did not reach. */
  method CountOrphans(vol: Volume, reach: array<bool>) returns (orphans: nat)
    requires vol.Valid() && reach.Length == vol.g.totalClusters
    modifies vol`cacheDirty, vol`cacheLba, vol.cache, vol.disk, vol.disk.sectors
    ensures vol.Valid()
    ensures orphans == 0 <==> forall c: nat {:trigger IsMarked(reach[..], c)} :: vol.g.IsCluster(c) && vol.view.fat[c] !in {FREE, BAD} ==>
                                IsMarked(reach[..], c)
  {
    hide Sees, Mirrored, Volume.HistoryIsTrace;
    orphans := 0;
    var c := 2;
    while c < vol.g.totalClusters + 2
      invariant 2 <= c <= vol.g.totalClusters + 2 && vol.Valid()
      invariant orphans == 0 <==> forall d: nat {:trigger IsMarked(reach[..], d)} :: 2 <= d < c && vol.view.fat[d] !in {FREE, BAD} ==>
                                    IsMarked(reach[..], d)
    {
      var value := vol.FatGet(c);
      ghost var _ := IsMarked(reach[..], c);
      var orphan := value != FREE && value != BAD && !reach[c - 2];
      orphans := orphans + if orphan then 1 else 0;
      c := c + 1;
    }
  }

  /** All five checks on a volume as the driver writes it: nothing is counted and no sector is written. */
  method ChimeraFsck(vol: Volume, ghost cat: Catalog) returns (stats: Stats, readonly: bool)
    requires Checked(vol, cat)
    modifies vol`cacheDirty, vol`cacheLba, vol.cache, vol.disk, vol.disk.sectors
    ensures Checked(vol, cat) && stats == NO_ERRORS && stats.Errors() == 0 && !readonly
    ensures |vol.disk.trace| == old(|vol.disk.trace|)
  {
    hide Sees, Mirrored, Volume.HistoryIsTrace, Shallow, Terminated, Consistent, Fits;
    TraceLength(vol);
    ghost var writes, written := |vol.history|, |vol.disk.trace|;
    stats := RunChecks(vol, cat);
    readonly := stats.failures > 0;
    TraceLength(vol);
    assert |vol.history| == writes && |vol.disk.trace| == written;
  }

  method RunChecks(vol: Volume, ghost cat: Catalog) returns (stats: Stats)
    requires Checked(vol, cat)
    modifies vol`cacheDirty, vol`cacheLba, vol.cache, vol.disk, vol.disk.sectors
    ensures Checked(vol, cat) && stats == NO_ERRORS
  {
    hide Sees, Mirrored, Volume.HistoryIsTrace, Via, MarksAre, Shallow, Terminated, NotYet, Consistent, Fits;
    var mismatches := CheckTables(vol);
    stats := NO_ERRORS.(mismatches := mismatches);
    var reach := new bool[vol.g.totalClusters](_ => false);
    var refs := new ClusRef[vol.g.totalClusters](_ => ClusRef(0, 0, false));
    NothingMarked(vol.g, cat, reach[..]);
    RootThere(vol.g, vol.view, cat);
    ghost var done;
    stats, done := WalkDir(vol, vol.g.rootCluster, 0, reach, refs, stats, cat, {});
    EverythingDone(vol.g, vol.view, cat, done);
    AllReached(vol.g, vol.view, cat, done, reach[..]);
    var orphans := CountOrphans(vol, reach);
    stats := stats.(orphans := orphans);
  }

  lemma RootThere(g: Geometry, v: View, cat: Catalog)
    requires Consistent(g, v, cat)
    ensures g.rootCluster in cat.dirs && g.rootCluster in cat.depth && cat.depth[g.rootCluster] == 0
  {
    hide TableOk, DirsOk, Orderly, EntriesOwn, OwnersAreEntries;
  }

  lemma NothingMarked(g: Geometry, cat: Catalog, reach: seq<bool>)
    requires |reach| == g.totalClusters && forall i {:trigger reach[i]} :: 0 <= i < |reach| ==> !reach[i]
    ensures MarksAre(g, cat, {}, reach) && NotYet(cat, {}, g.rootCluster)
  {
  }

  /** The walk from the root claims every chain. */
  lemma EverythingDone(g: Geometry, v: View, cat: Catalog, done: set<nat>)
    requires Consistent(g, v, cat)
    requires done == {} + {g.rootCluster} + set h | h in cat.owner && Via(cat, h, g.rootCluster) >= 0
    ensures done == cat.chains.Keys
  {
    hide TableOk, DirsOk, Orderly, EntriesOwn, OwnersAreEntries, Via;
    forall h | h in cat.owner
      ensures Via(cat, h, g.rootCluster) >= 0
    {
      ViaRoot(g, cat, h);
    }
  }

  lemma AllReached(g: Geometry, v: View, cat: Catalog, done: set<nat>, reach: seq<bool>)
    requires g.Valid() && Consistent(g, v, cat) && MarksAre(g, cat, done, reach) && done == cat.chains.Keys
    ensures Fits(g, v)
    ensures forall c: nat {:trigger IsMarked(reach, c)} :: g.IsCluster(c) && v.fat[c] !in {FREE, BAD} ==> IsMarked(reach, c)
  {
    hide MarksAre, TreeOk, TableOk, DirsOk;
    forall c: nat {:trigger IsMarked(reach, c)} | g.IsCluster(c) && v.fat[c] !in {FREE, BAD}
      ensures IsMarked(reach, c)
    {
      ReachedOrFree(g, v, cat, done, reach, c);
    }
  }

  /** No cluster in use is left unmarked. */
  lemma ReachedOrFree(g: Geometry, v: View, cat: Catalog, done: set<nat>, reach: seq<bool>, c: nat)
    requires g.Valid() && Consistent(g, v, cat) && MarksAre(g, cat, done, reach) && done == cat.chains.Keys && g.IsCluster(c)
    ensures v.fat[c] != FREE && v.fat[c] != BAD ==> IsMarked(reach, c)
  {
    hide Linked, TreeOk, DirsOk, Orderly;
    HeadsAreChains(g, cat.chains, cat.place);
  }
}

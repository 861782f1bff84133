/** What the operations come to over whole runs: a file that is written, closed and read again, and the clusters of a
    volume counted. */
module Runs {
  import opened Bytes
  import opened Layout
  import opened Chains
  import opened Disks
  import opened Volumes
  import opened Names
  import opened LongNames
  import opened Cells
  import opened Catalogs
  import opened Files
  import opened EntryChanges
  import opened TreeChanges
  import opened Paths
  import opened FileSystems

  /** The path leads to a file whose chain begins at `c`, with `n` bytes recorded. */
  ghost predicate FileAt(root: nat, cat: Catalog, path: Path, c: nat, n: nat) {
    var t := TargetOf(root, cat.dirs, path);
    && Present(cat.dirs, t)
    && Found(cat.dirs, t).clus == c && Found(cat.dirs, t).size == n && Found(cat.dirs, t).attr != ATTR_DIR
    && c in cat.owner && cat.owner[c].dir == t.dir && cat.owner[c].idx < |cat.dirs[t.dir]|
    && cat.dirs[t.dir][cat.owner[c].idx] == Found(cat.dirs, t)
  }

  /** Where a path leads does not change when a file entry is put in a directory. */
  lemma PutKeepsGoal(root: nat, dirs: map<nat, seq<Cell>>, dirs': map<nat, seq<Cell>>, path: Path, e: Cell)
    requires e.Entry83? && e.attr != ATTR_DIR
    requires var t := TargetOf(root, dirs, path);
      && t.Target? && t.dir in dirs && t.dir in dirs' && t.name != [] && Fold(e.name) == Fold(t.name)
      && (Present(dirs, t) ==> Found(dirs, t).attr != ATTR_DIR)
      && Listing(dirs'[t.dir]) == Listing(dirs[t.dir])[Fold(e.name) := e]
      && forall x | x in dirs && x != t.dir :: x in dirs' && dirs'[x] == dirs[x]
    ensures TargetOf(root, dirs', path) == TargetOf(root, dirs, path)
    ensures var t := TargetOf(root, dirs, path); Present(dirs', t) && Found(dirs', t) == e
  {
    hide Listing, Fold, Resolve;
    assert SameSubdirs(dirs, dirs');
    ResolveStable(root, dirs, dirs', root, path[1..]);
  }

  lemma CreatedAt(root: nat, v0: View, cat0: Catalog, v: View, cat: Catalog, path: Path, c: nat)
    requires var t := TargetOf(root, cat0.dirs, path);
      t.Target? && t.name != [] && !Present(cat0.dirs, t) && FileCreated(v0, cat0, v, cat, t, c)
    ensures FileAt(root, cat, path, c, 0)
  {
    hide Listing, Fold, Resolve, Keeps, Evolves, ShortsDistinct, Shorts, Content, TargetOf;
    var t := TargetOf(root, cat0.dirs, path);
    hide ShortFor;
    var k: nat, short: Short :| ShortFor(t.name, Shorts(cat0.dirs[t.dir]), short) &&
      EntryMade(v0, cat0, v, cat, t.dir, k, Entry83(t.name, short, ATTR_ARCHIVE, c, 0), map[]);
    PutKeepsGoal(root, cat0.dirs, cat.dirs, path, Entry83(t.name, short, ATTR_ARCHIVE, c, 0));
  }

  lemma RenewedAt(root: nat, v0: View, cat0: Catalog, v: View, cat: Catalog, path: Path, c: nat)
    requires var t := TargetOf(root, cat0.dirs, path);
      Present(cat0.dirs, t) && Found(cat0.dirs, t).attr != ATTR_DIR && FileRenewed(v0, cat0, v, cat, t, c)
    ensures FileAt(root, cat, path, c, 0)
  {
    hide Listing, Fold, Resolve, Evolves, Content, TargetOf;
    var t := TargetOf(root, cat0.dirs, path);
    var k: nat :| EntryRenewed(v0, cat0, v, cat, t.dir, k, c) && cat0.dirs[t.dir][k] == Found(cat0.dirs, t);
    PutKeepsGoal(root, cat0.dirs, cat.dirs, path, cat0.dirs[t.dir][k].(clus := c, size := 0));
  }

  lemma ResizedAt(g: Geometry, v: View, cat: Catalog, path: Path, c: nat, m: nat, n: nat)
    requires Consistent(g, v, cat) && FileAt(g.rootCluster, cat, path, c, m) && Owned(cat, c)
    ensures FileAt(g.rootCluster, Resized(cat, c, n), path, c, n)
  {
    hide Listing, Fold, Resolve, WellRun, NamesDistinct, TargetOf, Sound;
    var t := TargetOf(g.rootCluster, cat.dirs, path);
    var cells, k := cat.dirs[t.dir], cat.owner[c].idx;
    assert WellRun(cells) && NamesDistinct(cells);
    RetargetedFine(cells, k, c, n);
    PutKeepsGoal(g.rootCluster, cat.dirs, Resized(cat, c, n).dirs, path, cells[k].(size := n));
  }

  function Total(chunks: seq<seq<Byte>>): nat {
    if chunks == [] then 0 else Total(chunks[..|chunks| - 1]) + |chunks[|chunks| - 1]|
  }

  /** The accepted part of each chunk, one after the other. */
  function Joined(chunks: seq<seq<Byte>>, accepted: seq<nat>): (data: seq<Byte>)
    requires |accepted| <= |chunks|
    requires forall i {:trigger accepted[i]} :: 0 <= i < |accepted| ==> accepted[i] <= |chunks[i]|
  {
    if accepted == [] then [] else
      var i := |accepted| - 1;
      Joined(chunks, accepted[..i]) + chunks[i][..accepted[i]]
  }

  function Sum(lens: seq<nat>): nat {
    if lens == [] then 0 else Sum(lens[..|lens| - 1]) + lens[|lens| - 1]
  }

  lemma {:induction false} TotalFront(chunks: seq<seq<Byte>>, i: nat)
    requires i < |chunks|
    ensures Total(chunks[..i]) + |chunks[i]| == Total(chunks[..i + 1]) <= Total(chunks)
    decreases |chunks|
  {
    assert chunks[..i + 1][..i] == chunks[..i];
    if i + 1 < |chunks| {
      var front := chunks[..|chunks| - 1];
      TotalFront(front, i);
      assert front[..i] == chunks[..i] && front[..i + 1] == chunks[..i + 1];
    } else {
      assert chunks[..i + 1] == chunks;
    }
  }

  /** The first bytes of a file are the accepted ones. */
  ghost predicate Holds(bytes: seq<Byte>, data: seq<Byte>) {
    |data| <= |bytes| && bytes[..|data|] == data
  }

  lemma JoinedNext(chunks: seq<seq<Byte>>, accepted: seq<nat>, n: nat)
    requires |accepted| < |chunks| && n <= |chunks[|accepted|]|
    requires forall i {:trigger accepted[i]} :: 0 <= i < |accepted| ==> accepted[i] <= |chunks[i]|
    ensures Joined(chunks, accepted + [n]) == Joined(chunks, accepted) + chunks[|accepted|][..n]
  {
    assert (accepted + [n])[..|accepted|] == accepted;
  }

  /** A chunk is accepted in part only when no cluster is free any more. */
  ghost predicate FullIfShort(chunks: seq<seq<Byte>>, accepted: seq<nat>, fat: seq<nat>)
    requires |accepted| <= |chunks|
  {
    forall i {:trigger accepted[i]} :: 0 <= i < |accepted| && accepted[i] < |chunks[i]| ==> Full(fat)
  }

  lemma NothingShort(chunks: seq<seq<Byte>>, fat: seq<nat>)
    ensures FullIfShort(chunks, [], fat)
  {
  }

  lemma ShortStays(chunks: seq<seq<Byte>>, accepted: seq<nat>, n: nat, fat: seq<nat>, fat': seq<nat>)
    requires |accepted| < |chunks| && FullIfShort(chunks, accepted, fat) && StillUsed(fat, fat')
    requires n < |chunks[|accepted|]| ==> Full(fat')
    ensures FullIfShort(chunks, accepted + [n], fat')
  {
    if Full(fat) {
      assert Full(fat');
    }
    var more := accepted + [n];
    forall i {:trigger more[i]} | 0 <= i < |more| && more[i] < |chunks[i]|
      ensures Full(fat')
    {
      if i < |accepted| {
        assert accepted[i] == more[i];
      }
    }
  }

  /** Writes the chunks one after the other. */
  method WriteAll(fs: FileSystem, fd: nat, chunks: seq<seq<Byte>>) returns (accepted: seq<nat>)
    requires fs.Good() && fd < MAX_FD && IsWriter(fs.fds[fd]) && fs.fds[fd].size == fs.fds[fd].pos == 0
    requires Total(chunks) < U32
    modifies fs`cat, fs.fds, fs.vol.Repr()
    ensures fs.Good() && |accepted| == |chunks|
    ensures forall i {:trigger accepted[i]} :: 0 <= i < |accepted| ==> accepted[i] <= |chunks[i]|
    ensures IsWriter(fs.fds[fd]) && fs.fds[fd].cluster == old(fs.fds[fd].cluster)
    ensures fs.fds[fd].size == |Joined(chunks, accepted)|
    ensures Holds(fs.Bytes(fs.fds[fd].cluster), Joined(chunks, accepted))
    ensures fs.cat.dirs == old(fs.cat).dirs && fs.cat.owner == old(fs.cat).owner
    ensures fs.fds[..] == old(fs.fds[..])[fd := fs.fds[fd]]
    ensures FullIfShort(chunks, accepted, fs.vol.view.fat)
  {
    hide Consistent, Content, DescsOk, Volume.Valid, FullIfShort;
    accepted := [];
    NothingShort(chunks, fs.vol.view.fat);
    ghost var c := fs.fds[fd].cluster;
    while |accepted| < |chunks|
      invariant |accepted| <= |chunks| && fs.Good()
      invariant forall i {:trigger accepted[i]} :: 0 <= i < |accepted| ==> accepted[i] <= |chunks[i]|
      invariant IsWriter(fs.fds[fd]) && fs.fds[fd].cluster == c
      invariant fs.fds[fd].size == |Joined(chunks, accepted)| <= Total(chunks[..|accepted|])
      invariant Holds(fs.Bytes(c), Joined(chunks, accepted))
      invariant fs.cat.dirs == old(fs.cat).dirs && fs.cat.owner == old(fs.cat).owner
      invariant fs.fds[..] == old(fs.fds[..])[fd := fs.fds[fd]]
      invariant FullIfShort(chunks, accepted, fs.vol.view.fat)
      decreases |chunks| - |accepted|
    {
      ghost var fat := fs.vol.view.fat;
      ghost var before := fs.Bytes(c);
      TotalFront(chunks, |accepted|);
      var n := fs.Write(fd, chunks[|accepted|]);
      JoinedNext(chunks, accepted, n);
      ShortStays(chunks, accepted, n, fat, fs.vol.view.fat);
      accepted := accepted + [n];
    }
  }

  /** Reads pieces of the asked lengths, until the end of the file. */
  method ReadAll(fs: FileSystem, fd: nat, lens: seq<nat>) returns (out: seq<Byte>)
    requires fs.Good() && fd < MAX_FD && fs.fds[fd].open && !fs.fds[fd].write && fs.fds[fd].pos == 0
    modifies fs.fds, fs.vol`cacheDirty, fs.vol`cacheLba, fs.vol.cache, fs.vol.disk, fs.vol.disk.sectors
    ensures fs.Good()
    ensures var f := old(fs.fds[fd]);
      && f.size <= |fs.Bytes(f.cluster)|
      && out == fs.Bytes(f.cluster)[..if Sum(lens) <= f.size then Sum(lens) else f.size]
  {
    hide Consistent, Content, DescsOk, Volume.Valid;
    out := [];
    ghost var f := fs.fds[fd];
    ReaderFits(fs, fd);
    var i := 0;
    while i < |lens|
      invariant 0 <= i <= |lens| && fs.Good()
      invariant fs.fds[fd] == f.(pos := |out|, cur := fs.fds[fd].cur)
      invariant |out| == if Sum(lens[..i]) <= f.size then Sum(lens[..i]) else f.size
      invariant |out| <= |fs.Bytes(f.cluster)| && out == fs.Bytes(f.cluster)[..|out|]
    {
      assert lens[..i + 1][..i] == lens[..i];
      var n, piece := fs.Read(fd, lens[i]);
      out := out + piece;
      i := i + 1;
    }
    assert lens[..i] == lens;
  }

  lemma ReaderFits(fs: FileSystem, fd: nat)
    requires fs.Good() && fd < MAX_FD && fs.fds[fd].open && !fs.fds[fd].write
    ensures fs.fds[fd].pos <= fs.fds[fd].size <= |fs.Bytes(fs.fds[fd].cluster)|
  {
    hide Sound, DescsOk, Content;
    DescAt(fs.vol.g, fs.cat, fs.fds[..], fd);
    ReaderContent(fs.vol.g, fs.vol.view, fs.cat, fs.fds[fd]);
  }

  /** Opens a file for writing, writes the chunks and closes it again. */
  method WriteFile(fs: FileSystem, path: Path, chunks: seq<seq<Byte>>) returns (err: int, accepted: seq<nat>, ghost c: nat)
    requires fs.Good() && Total(chunks) < U32
    requires path != [SLASH] ==>
               if Present(fs.cat.dirs, fs.Goal(path)) then NotOpen(fs.fds[..], Found(fs.cat.dirs, fs.Goal(path)).clus)
               else fs.Goal(path).Target? ==> Storable(fs.Goal(path).name)
    modifies fs`cat, fs.fds, fs.vol.Repr()
    ensures fs.Good()
    ensures err == (if old(fs.OpenError(path, true)) != 0 then old(fs.OpenError(path, true)) else OK) || err == ERR_FULL
    ensures err == OK ==>
              && |accepted| == |chunks|
              && (forall i {:trigger accepted[i]} :: 0 <= i < |accepted| ==> accepted[i] <= |chunks[i]|)
              && FileAt(fs.vol.g.rootCluster, fs.cat, path, c, |Joined(chunks, accepted)|)
              && Holds(fs.Bytes(c), Joined(chunks, accepted))
              && path != [SLASH] && (exists i | 0 <= i < MAX_FD :: !fs.fds[i].open)
              && FullIfShort(chunks, accepted, fs.vol.view.fat)
  {
    hide Consistent, Content, DescsOk, Volume.Valid, TargetOf, Make83, NotOpen, Listing, FileCreated, FileRenewed;
    hide Resized, Owned, CrashSafe, FileAt, Joined, Fold, FullIfShort;
    accepted := [];
    ghost var root, v0, cat0, t := fs.vol.g.rootCluster, fs.vol.view, fs.cat, fs.Goal(path);
    var fd := fs.Open(path, true);
    if fd < 0 {
      return fd, accepted, 0;
    }
    c := fs.fds[fd].cluster;
    if Present(cat0.dirs, t) {
      RenewedAt(root, v0, cat0, fs.vol.view, fs.cat, path, c);
    } else {
      CreatedAt(root, v0, cat0, fs.vol.view, fs.cat, path, c);
    }
    ghost var cat1 := fs.cat;
    accepted := WriteAll(fs, fd, chunks);
    StillAt(root, cat1, fs.cat, path, c, 0);
    ghost var n, v2, cat2 := fs.fds[fd].size, fs.vol.view, fs.cat;
    FileBytes(fs, fd);
    fs.Close(fd);
    ResizedAt(fs.vol.g, v2, cat2, path, c, 0, n);
    assert !fs.fds[fd].open;
    err := OK;
  }

  lemma StillAt(root: nat, cat: Catalog, cat': Catalog, path: Path, c: nat, n: nat)
    requires FileAt(root, cat, path, c, n) && cat'.dirs == cat.dirs && cat'.owner == cat.owner
    ensures FileAt(root, cat', path, c, n)
  {
  }

  /** The bytes of a writer's file outlive its closing. */
  lemma FileBytes(fs: FileSystem, fd: nat)
    requires fs.Good() && fd < MAX_FD && IsWriter(fs.fds[fd])
    ensures fs.fds[fd].cluster in fs.cat.chains && fs.fds[fd].cluster !in fs.cat.dirs
    ensures forall n :: Resized(fs.cat, fs.fds[fd].cluster, n).chains == fs.cat.chains
    ensures forall n :: Resized(fs.cat, fs.fds[fd].cluster, n).dirs.Keys == fs.cat.dirs.Keys
  {
    hide Consistent, Mul, AtSector, Volume.Valid;
    DescAt(fs.vol.g, fs.cat, fs.fds[..], fd);
  }

  /** What was accepted between an opening for writing and the closing comes back, in order, whatever the sizes it was
      written in and is read in. */
  method WriteThenRead(fs: FileSystem, path: Path, chunks: seq<seq<Byte>>, lens: seq<nat>)
    returns (err: int, accepted: seq<nat>, out: seq<Byte>)
    requires fs.Good() && Total(chunks) < U32
    requires path != [SLASH] ==>
               if Present(fs.cat.dirs, fs.Goal(path)) then NotOpen(fs.fds[..], Found(fs.cat.dirs, fs.Goal(path)).clus)
               else fs.Goal(path).Target? ==> Storable(fs.Goal(path).name)
    modifies fs`cat, fs.fds, fs.vol.Repr()
    ensures fs.Good()
    ensures err == (if old(fs.OpenError(path, true)) != 0 then old(fs.OpenError(path, true)) else OK) || err == ERR_FULL
    ensures err == OK ==>
              && |accepted| == |chunks|
              && (forall i {:trigger accepted[i]} :: 0 <= i < |accepted| ==> accepted[i] <= |chunks[i]|)
              && var data := Joined(chunks, accepted);
              && out == data[..if Sum(lens) <= |data| then Sum(lens) else |data|]
              && Present(fs.cat.dirs, fs.Goal(path)) && Found(fs.cat.dirs, fs.Goal(path)).size == |data|
              && FullIfShort(chunks, accepted, fs.vol.view.fat)
  {
    hide Consistent, Content, DescsOk, Volume.Valid, TargetOf, Storable, NotOpen, Listing, Joined, Fold, FullIfShort;
    out := [];
    ghost var c;
    err, accepted, c := WriteFile(fs, path, chunks);
    if err != OK {
      return;
    }
    assert fs.OpenError(path, false) == 0;
    var fd := fs.Open(path, false);
    out := ReadAll(fs, fd, lens);
  }

  // ---- Every cluster is accounted for ----

  function ClustersWith(fat: seq<nat>, x: nat): set<nat> {
    set c: nat | 2 <= c < |fat| && fat[c] == x
  }

  /** The lengths of all chains together. */
  ghost function ChainTotal(chains: ChainMap): nat {
    if chains.Keys == {} then 0
    else
      var h :| h in chains;
      |chains[h]| + ChainTotal(chains - {h})
  }

  lemma ChainDistinct(g: Geometry, chains: ChainMap, place: Places, h: nat)
    requires Homed(g, chains, place) && h in chains
    ensures Distinct(chains[h])
  {
    hide Homed;
    forall i, j | 0 <= i < j < |chains[h]|
      ensures chains[h][i] != chains[h][j]
    {
      PlaceOf(g, chains, place, h, i);
      PlaceOf(g, chains, place, h, j);
    }
  }

  function WithoutPlaces(place: Places, h: nat): Places {
    map c | c in place && place[c].head != h :: place[c]
  }

  lemma PlacesSplit(g: Geometry, chains: ChainMap, place: Places, h: nat)
    requires Homed(g, chains, place) && h in chains
    ensures Homed(g, chains - {h}, WithoutPlaces(place, h))
    ensures place.Keys == WithoutPlaces(place, h).Keys + Members(chains[h])
    ensures WithoutPlaces(place, h).Keys !! Members(chains[h])
  {
    forall c
      ensures c in chains[h] <==> c in place && place[c].head == h
    {
      if c in chains[h] {
        var i :| 0 <= i < |chains[h]| && chains[h][i] == c;
        PlaceOf(g, chains, place, h, i);
      }
    }
  }

  /** Chains that share no cluster have as many clusters as their lengths add up to. */
  lemma {:induction false} PlacesCount(g: Geometry, chains: ChainMap, place: Places)
    requires Homed(g, chains, place)
    ensures |place.Keys| == ChainTotal(chains)
    decreases |chains.Keys|
  {
    if chains.Keys == {} {
      assert place.Keys == {} by {
        HeadsAreChains(g, chains, place);
      }
    } else {
      hide Homed;
      var h :| h in chains && ChainTotal(chains) == |chains[h]| + ChainTotal(chains - {h});
      PlacesSplit(g, chains, place, h);
      assert (chains - {h}).Keys == chains.Keys - {h};
      PlacesCount(g, chains - {h}, WithoutPlaces(place, h));
      ChainDistinct(g, chains, place, h);
      MembersCount(chains[h]);
    }
  }

  lemma Partition(fat: seq<nat>, n: nat, placed: set<nat>)
    requires |fat| == n + 2
    requires forall c {:trigger c in placed} :: c in placed ==> 2 <= c < n + 2 && fat[c] != FREE && fat[c] != BAD
    requires forall c {:trigger fat[c]} :: 2 <= c < n + 2 && fat[c] != FREE && fat[c] != BAD ==> c in placed
    ensures |ClustersWith(fat, FREE)| + |ClustersWith(fat, BAD)| + |placed| == n
  {
    var free, bad := ClustersWith(fat, FREE), ClustersWith(fat, BAD);
    var both := free + bad;
    assert free !! bad;
    assert |both| == |free| + |bad|;
    assert both !! placed;
    var all := both + placed;
    assert |all| == |both| + |placed|;
    forall c
      ensures c in all <==> c in Range(n)
    {
      if c in Range(n) {
        var _ := fat[c];
      }
    }
    assert all == Range(n);
  }

  /** Free clusters, bad clusters and the lengths of all chains add up to the clusters of the volume. */
  lemma Conservation(g: Geometry, v: View, cat: Catalog)
    requires g.Valid() && Consistent(g, v, cat)
    ensures |ClustersWith(v.fat, FREE)| + |ClustersWith(v.fat, BAD)| + ChainTotal(cat.chains) == g.totalClusters
  {
    hide TreeOk, DirsOk, Orderly, Linked, ChainTotal, ClustersWith;
    PlacesCount(g, cat.chains, cat.place);
    var placed := cat.place.Keys;
    forall c | c in placed
      ensures g.IsCluster(c)
    {
      PlaceOf(g, cat.chains, cat.place, cat.place[c].head, cat.place[c].idx);
    }
    hide Homed;
    Partition(v.fat, g.totalClusters, placed);
  }

  // ---- Power cuts ----

  /** Operations that only add: bytes to a file, its size to its entry, a file, a directory. */
  datatype Step = WriteStep(fd: int, buf: seq<Byte>) | CloseStep(fd: int) | CreateStep(path: Path) | MkdirStep(path: Path)

  /** What the operations ask of their callers; a file or directory is made where its directory has room for it. */
  ghost predicate CanTake(fs: FileSystem, step: Step)
    requires fs.Good()
    reads fs, fs.fds, fs.vol, fs.vol.Repr()
  {
    match step
    case WriteStep(fd, buf) => 0 <= fd < MAX_FD && IsWriter(fs.fds[fd]) ==> fs.fds[fd].size + |buf| < U32
    case CloseStep(fd) => true
    case CreateStep(path) => New(fs, path)
    case MkdirStep(path) => New(fs, path)
  }

  ghost predicate New(fs: FileSystem, path: Path)
    reads fs, fs.vol
  {
    && path != [SLASH] && !Present(fs.cat.dirs, fs.Goal(path)) && RoomFor(fs.cat, fs.Goal(path))
    && (fs.Goal(path).Target? ==> Storable(fs.Goal(path).name))
  }

  /** The image can be mounted, and then is as safe as a power cut may leave the volume `v0`. */
  ghost predicate Remountable(g: Geometry, img: Image, v0: View, cat0: Catalog) {
    exists v {:trigger Sees(g, img, v)} :: Sees(g, img, v) && Fits(g, v) && CrashSafe(g, v0, cat0, v)
  }

  /** An operation cut short at any of its sector writes leaves an image that can be mounted safely. */
  method Take(fs: FileSystem, step: Step)
    requires fs.Good() && CanTake(fs, step)
    modifies fs`cat, fs.fds, fs.vol.Repr()
    ensures fs.Good() && |old(fs.vol.disk.trace)| <= |fs.vol.disk.trace|
    ensures forall n {:trigger fs.vol.disk.trace[n]} :: |old(fs.vol.disk.trace)| <= n < |fs.vol.disk.trace| ==>
              Remountable(fs.vol.g, fs.vol.disk.trace[n], old(fs.vol.view), old(fs.cat))
  {
    hide Consistent, CrashSafe, DescsOk, Volume.Valid, Remountable, RoomFor, Storable, AllSafe, Listing, TargetOf, Content;
    TraceLength(fs.vol);
    ghost var v, cat, h := fs.vol.view, fs.cat, fs.vol.history;
    match step {
      case WriteStep(fd, buf) =>
        var _ := fs.Write(fd, buf);
        EachSafe(fs.vol.g, v, cat, h, fs.vol.history);
      case CloseStep(fd) =>
        fs.Close(fd);
        EachSafe(fs.vol.g, v, cat, h, fs.vol.history);
      case CreateStep(path) =>
        var _ := fs.Open(path, true);
      case MkdirStep(path) =>
        var _, _ := fs.Mkdir(path);
    }
    TraceLength(fs.vol);
    ImagesSafe(fs.vol, v, cat, h);
  }

  /** What is said of the states of a history is said of the images of the trace. */
  lemma ImagesSafe(vol: Volume, v0: View, cat0: Catalog, h: seq<View>)
    requires vol.Valid() && AllSafe(vol.g, v0, cat0, h, vol.history)
    ensures forall n {:trigger vol.disk.trace[n]} :: vol.mountedAt + |h| <= n < |vol.disk.trace| ==>
              Remountable(vol.g, vol.disk.trace[n], v0, cat0)
  {
    hide Sees, Mirrored, CrashSafe;
    forall n {:trigger vol.disk.trace[n]} | vol.mountedAt + |h| <= n < |vol.disk.trace|
      ensures Remountable(vol.g, vol.disk.trace[n], v0, cat0)
    {
      var v := vol.history[n - vol.mountedAt];
      assert Sees(vol.g, vol.disk.trace[n], v);
      CutFits(vol.g, v0, cat0, v);
    }
  }

  /** Mounting what a power cut left: the second table is repaired from the first, nothing else changes, and the volume is
      safe. */
  method RemountAfterCut(g: Geometry, sectors: array<Sector>, ghost v0: View, ghost cat0: Catalog) returns (vol: Volume)
    requires g.Valid() && g.numFats <= 2 && g.Sectors() <= sectors.Length <= NO_SECTOR
    requires Remountable(g, sectors[..], v0, cat0)
    modifies sectors
    ensures vol.Valid() && vol.g == g && Sees(g, old(sectors[..]), vol.view) && CrashSafe(g, v0, cat0, vol.view)
  {
    hide Sees, Mirrored, CrashSafe;
    ghost var v :| Sees(g, sectors[..], v) && Fits(g, v) && CrashSafe(g, v0, cat0, v);
    var disk := new Disk(sectors);
    vol := new Volume.Mount(g, disk, v);
  }

  lemma CutFits(g: Geometry, v0: View, cat0: Catalog, v: View)
    requires CrashSafe(g, v0, cat0, v)
    ensures Fits(g, v)
  {
    hide TableOk, TreeOk, DirsOk, Files.Keeps;
  }
}

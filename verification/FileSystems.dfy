/** The public file and directory operations. */
module FileSystems {
  import opened Bytes
  import opened Layout
  import opened Chains
  import opened Disks
  import opened Volumes
  import opened Names
  import opened LongNames
  import opened ChainData
  import opened Cells
  import opened Directories
  import opened DirAdd
  import opened Catalogs
  import opened Files
  import opened EntryChanges
  import opened TreeChanges
  import opened PowerCuts
  import opened Paths

  const MAX_FD: nat := 16

  const OK: int := 0
  const ERR_NOTFOUND: int := -1
  const ERR_EXISTS: int := -2
  const ERR_FULL: int := -3
  const ERR_IO: int := -4
  const ERR_ISDIR: int := -6
  const ERR_NOMEM: int := -7

  class FileSystem {
    const vol: Volume
    const fds: array<FileDesc>
    var readonly: bool
    ghost var cat: Catalog

    constructor (vol: Volume, ghost cat: Catalog)
      requires vol.Valid() && vol.g.secPerClus >= 2 && Consistent(vol.g, vol.view, cat)
      ensures this.vol == vol && this.cat == cat && fresh(fds) && Good()
      ensures forall i | 0 <= i < MAX_FD :: fds[i] == CLOSED
    {
      hide Consistent, Sees, Mirrored;
      this.vol := vol;
      this.cat := cat;
      readonly := false;
      fds := new FileDesc[MAX_FD](_ => CLOSED);
    }

    ghost function Repr(): set<object> {
      {this, fds} + vol.Repr()
    }

    /** What holds between operations. */
    ghost predicate Good()
      reads Repr()
    {
      && vol.Valid()
      && vol.g.secPerClus >= 2
      && fds.Length == MAX_FD
      && Consistent(vol.g, vol.view, cat)
      && DescsOk(vol.g, cat, fds[..])
    }

    /** The bytes of the file behind a chain, as far as a descriptor has come. */
    ghost function Bytes(h: nat): seq<Byte>
      reads this, vol
    {
      Content(vol.view, cat, h)
    }

    method Read(fd: int, len: nat) returns (n: int, out: seq<Byte>)
      requires Good()
      modifies fds, vol`cacheDirty, vol`cacheLba, vol.cache, vol.disk, vol.disk.sectors
      ensures Good()
      ensures !(0 <= fd < MAX_FD && old(fds[fd].open)) ==> n == ERR_NOTFOUND && out == [] && fds[..] == old(fds[..])
      ensures 0 <= fd < MAX_FD && old(fds[fd].open) && !old(fds[fd].write) ==>
                var f := old(fds[fd]);
                && n == |out| == (if len <= f.size - f.pos then len else f.size - f.pos)
                && f.pos + n <= |Bytes(f.cluster)|
                && out == Bytes(f.cluster)[f.pos..f.pos + n]
                && fds[..] == old(fds[..])[fd := f.(pos := f.pos + n, cur := fds[fd].cur)]
      ensures 0 <= fd < MAX_FD && old(fds[fd].open) && old(fds[fd].write) ==>
                n == 0 && out == [] && fds[..] == old(fds[..])
    {
      hide Sees, Mirrored, Mul, Quot, Rem, Sound, DescsOk, Content, Capacity, Volume.HistoryIsTrace;
      out := [];
      if fd < 0 || fd >= MAX_FD || !fds[fd].open {
        return ERR_NOTFOUND, out;
      }
      if fds[fd].pos >= fds[fd].size {
        DescAt(vol.g, cat, fds[..], fd);
        if !fds[fd].write {
          ReaderContent(vol.g, vol.view, cat, fds[fd]);
        }
        return 0, out;
      }
      DescAt(vol.g, cat, fds[..], fd);
      ghost var f0 := fds[fd];
      ghost var content := Bytes(f0.cluster);
      ReaderContent(vol.g, vol.view, cat, f0);
      var want := if len > fds[fd].size - fds[fd].pos then fds[fd].size - fds[fd].pos else len;
      var done := 0;
      while done < want
        invariant 0 <= done <= want && want <= f0.size - f0.pos
        invariant vol.Valid()
        invariant fds[..] == old(fds[..])[fd := fds[fd]] && fds[fd] == f0.(pos := f0.pos + done, cur := fds[fd].cur)
        invariant ReaderOk(vol.g, cat, fds[fd])
        invariant |content| >= f0.pos + done && out == content[f0.pos..f0.pos + done]
      {
        var chunk := ReadChunk(fd, want - done);
        out := out + chunk;
        done := done + |chunk|;
      }
      DescsReplaced(vol.g, cat, old(fds[..]), fd, fds[fd]);
      n := done;
    }

    /** One round of the loop of `Read`: the rest of a sector, or what is wanted of it. */
    method ReadChunk(fd: nat, want: nat) returns (chunk: seq<Byte>)
      requires vol.Valid() && vol.g.secPerClus >= 2 && fds.Length == MAX_FD && fd < MAX_FD && want > 0
      requires Sound(vol.g, vol.view, cat, {}, {}) && ReaderOk(vol.g, cat, fds[fd])
      requires want <= fds[fd].size - fds[fd].pos
      modifies fds, vol`cacheDirty, vol`cacheLba, vol.cache, vol.disk, vol.disk.sectors
      ensures vol.Valid()
      ensures 0 < |chunk| <= want
      ensures var f := old(fds[fd]);
        && f.pos + |chunk| <= |Bytes(f.cluster)| && chunk == Bytes(f.cluster)[f.pos..f.pos + |chunk|]
        && fds[..] == old(fds[..])[fd := fds[fd]]
        && fds[fd] == f.(pos := f.pos + |chunk|, cur := fds[fd].cur)
      ensures ReaderOk(vol.g, cat, fds[fd])
    {
      hide Sees, Mirrored, Mul, Quot, Rem, ChainSectors, FlatBytes, Sound, Capacity, ReaderOk, Volume.HistoryIsTrace;
      ghost var f := fds[fd];
      ReaderKnown(vol.g, cat, f);
      var clusterSize := vol.g.secPerClus * SECTOR_SIZE;
      ghost var ch, m := cat.chains[f.cluster], f.pos / SECTOR_SIZE;
      ghost var q, s := Quot(m, vol.g.secPerClus), Rem(m, vol.g.secPerClus);
      PositionSplit(vol.g, f.pos);
      ReaderSector(vol.g, vol.view, cat, f);
      var clusOff := Rem(fds[fd].pos, clusterSize);
      var secOff := clusOff / SECTOR_SIZE;
      var byteOff := clusOff % SECTOR_SIZE;
      var lba := vol.g.ClusterLba(fds[fd].cur) + secOff;
      vol.LoadData(lba, ch[q], s);
      var canRead := SECTOR_SIZE - byteOff;
      if canRead > want {
        canRead := want;
      }
      chunk := vol.cache[byteOff..byteOff + canRead];
      FlatWindow(ChainSectors(vol.view.data, ch), m, byteOff, byteOff + canRead);
      MoveReader(fd, canRead);
    }

    /** The descriptor after a piece of the current sector was read: at the end of a cluster it goes on to the next one. */
    method MoveReader(fd: nat, n: nat)
      requires vol.Valid() && vol.g.secPerClus >= 2 && fds.Length == MAX_FD && fd < MAX_FD
      requires Sound(vol.g, vol.view, cat, {}, {}) && ReaderOk(vol.g, cat, fds[fd])
      requires 0 < n <= fds[fd].size - fds[fd].pos && n <= SECTOR_SIZE - fds[fd].pos % SECTOR_SIZE
      modifies fds, vol`cacheDirty, vol`cacheLba, vol.cache, vol.disk, vol.disk.sectors
      ensures vol.Valid()
      ensures fds[..] == old(fds[..])[fd := fds[fd]]
      ensures fds[fd] == old(fds[fd]).(pos := old(fds[fd]).pos + n, cur := fds[fd].cur)
      ensures ReaderOk(vol.g, cat, fds[fd])
    {
      hide Sees, Mirrored, Mul, Quot, Rem, Sound, Capacity, ReaderOk, Volume.HistoryIsTrace, Fits;
      ghost var f := fds[fd];
      ReaderKnown(vol.g, cat, f);
      ReaderSector(vol.g, vol.view, cat, f);
      ReaderInTable(vol.g, vol.view, cat, f);
      var clusterSize := vol.g.secPerClus * SECTOR_SIZE;
      fds[fd] := fds[fd].(pos := fds[fd].pos + n);
      if Rem(fds[fd].pos, clusterSize) == 0 {
        var next := vol.FatGet(fds[fd].cur);
        fds[fd] := fds[fd].(cur := next);
      }
      ReaderMoves(vol.g, vol.view, cat, f, fds[fd]);
    }

    /** Accepts the bytes in order until the disk is full. */
    method Write(fd: int, buf: seq<Byte>) returns (n: int)
      requires Good()
      requires 0 <= fd < MAX_FD && IsWriter(fds[fd]) ==> fds[fd].size + |buf| < U32
      modifies this`cat, fds, vol.Repr()
      ensures Good()
      ensures !(0 <= fd < MAX_FD && old(IsWriter(fds[fd]))) ==>
                n == ERR_NOTFOUND && vol.view == old(vol.view) && cat == old(cat) && fds[..] == old(fds[..])
      ensures 0 <= fd < MAX_FD && old(IsWriter(fds[fd])) ==>
                var f := old(fds[fd]);
                && 0 <= n <= |buf|
                && fds[..] == old(fds[..])[fd := f.(pos := f.pos + n, size := f.size + n, cur := fds[fd].cur)]
                && Accepted(old(Bytes(f.cluster)), f.size, Bytes(f.cluster), buf, n)
                && OnlyFileGrew(old(vol.view), old(cat), vol.view, cat, f.cluster)
                && (n < |buf| ==> Full(vol.view.fat))
      ensures old(vol.history) <= vol.history
      ensures forall i {:trigger vol.history[i]} :: |old(vol.history)| <= i < |vol.history| ==>
                CrashSafe(vol.g, old(vol.view), old(cat), vol.history[i])
    {
      hide Sees, Mirrored, Mul, Quot, Rem, Sound, DescsOk, Content, Capacity, WriterOk, OnlyFileGrew, Keeps, CrashSafe;
      hide Volume.HistoryIsTrace, Accepted;
      if fd < 0 || fd >= MAX_FD || !fds[fd].open || !fds[fd].write {
        return ERR_NOTFOUND;
      }
      ghost var f0, bytes0 := fds[fd], Bytes(fds[fd].cluster);
      DescAt(vol.g, cat, fds[..], fd);
      WriterContent(vol.g, vol.view, cat, f0);
      GrewStart(vol.view, cat, f0.cluster);
      KeepsStart(vol.view, cat);
      NothingAccepted(bytes0, f0.size, buf);
      var written := 0;
      while written < |buf|
        invariant 0 <= written <= |buf|
        invariant Good() && IsWriter(fds[fd])
        invariant fds[..] == old(fds[..])[fd := fds[fd]]
        invariant fds[fd] == f0.(pos := f0.pos + written, size := f0.size + written, cur := fds[fd].cur)
        invariant Accepted(bytes0, f0.size, Bytes(f0.cluster), buf, written)
        invariant OnlyFileGrew(old(vol.view), old(cat), vol.view, cat, f0.cluster)
        invariant Keeps(old(vol.view), old(cat), vol.view, cat)
        invariant old(vol.history) <= vol.history
        invariant forall i {:trigger vol.history[i]} :: |old(vol.history)| <= i < |vol.history| ==>
                    CrashSafe(vol.g, old(vol.view), old(cat), vol.history[i])
      {
        ghost var before := Bytes(f0.cluster);
        var ok := Advance(fd, old(vol.view), old(cat));
        if !ok {
          break;
        }
        ghost var between := Bytes(f0.cluster);
        var k := PutChunk(fd, buf[written..], old(vol.view), old(cat));
        AcceptedMore(bytes0, f0.size, before, between, Bytes(f0.cluster), buf, written, k);
        written := written + k;
      }
      n := written;
    }

    /** The front of the loop of `Write`: at the end of a full cluster, go on to a new one. */
    method Advance(fd: nat, ghost v0: View, ghost cat0: Catalog) returns (ok: bool)
      requires Good() && fd < MAX_FD && IsWriter(fds[fd])
      requires Keeps(v0, cat0, vol.view, cat) && OnlyFileGrew(v0, cat0, vol.view, cat, fds[fd].cluster)
      modifies this`cat, fds, vol.Repr()
      ensures vol.Valid() && Consistent(vol.g, vol.view, cat) && fds.Length == MAX_FD
      ensures DescsOk(vol.g, cat, fds[..][fd := CLOSED]) && SoleWriter(fds[..], fd)
      ensures Keeps(v0, cat0, vol.view, cat) && OnlyFileGrew(v0, cat0, vol.view, cat, fds[fd].cluster)
      ensures fds[..] == old(fds[..])[fd := old(fds[fd]).(cur := fds[fd].cur)]
      ensures ok ==> WriterReady(vol.g, cat, fds[fd])
      ensures !ok ==> Good() && vol.view == old(vol.view) && cat == old(cat)
      ensures !ok ==> forall x {:trigger vol.view.fat[x]} :: 2 <= x < |vol.view.fat| ==> vol.view.fat[x] != FREE
      ensures fds[fd].size <= |old(Bytes(fds[fd].cluster))| && old(Bytes(fds[fd].cluster)) <= Bytes(fds[fd].cluster)
      ensures old(vol.history) <= vol.history
      ensures forall i {:trigger vol.history[i]} :: |old(vol.history)| <= i < |vol.history| ==>
                CrashSafe(vol.g, v0, cat0, vol.history[i])
    {
      hide Sees, Mirrored, Mul, Quot, Rem, Sound, DescsOk, Content, Capacity, WriterOk, WriterReady, OnlyFileGrew, Keeps;
      hide CrashSafe, Volume.HistoryIsTrace, DescOk, SoleWriter;
      ghost var f := fds[fd];
      DescAt(vol.g, cat, fds[..], fd);
      WriterContent(vol.g, vol.view, cat, f);
      WriterCases(vol.g, cat, f);
      DescsClosed(vol.g, cat, fds[..], fd);
      PositionSplit(vol.g, f.pos);
      var clusterSize := vol.g.secPerClus * SECTOR_SIZE;
      var clusOff := Rem(fds[fd].pos, clusterSize);
      if clusOff == 0 && fds[fd].pos > 0 {
        WriterLast(vol.g, vol.view, cat, f);
        var next := vol.FatGet(fds[fd].cur);
        if next >= EOC || next < 2 {
          next := AllocNext(fd, v0, cat0);
          if next == 0 {
            return false;
          }
        }
        SoleWriterMoves(fds[..], fd, next);
        fds[fd] := fds[fd].(cur := next);
        assert fds[..][fd := CLOSED] == old(fds[..])[fd := CLOSED];
      }
      ok := true;
    }

    /** A new cluster for the file of a writer that filled its last one. */
    method AllocNext(fd: nat, ghost v0: View, ghost cat0: Catalog) returns (newClus: nat)
      requires Good() && fd < MAX_FD && IsWriter(fds[fd]) && WriterOk(vol.g, cat, fds[fd])
      requires fds[fd].cluster in cat.chains && fds[fd].pos == Capacity(vol.g, |cat.chains[fds[fd].cluster]|)
      requires Keeps(v0, cat0, vol.view, cat) && OnlyFileGrew(v0, cat0, vol.view, cat, fds[fd].cluster)
      modifies this`cat, vol.Repr()
      ensures vol.Valid() && Consistent(vol.g, vol.view, cat)
      ensures DescsOk(vol.g, cat, fds[..][fd := CLOSED])
      ensures Keeps(v0, cat0, vol.view, cat) && OnlyFileGrew(v0, cat0, vol.view, cat, fds[fd].cluster)
      ensures newClus != 0 ==> WriterReady(vol.g, cat, fds[fd].(cur := newClus))
      ensures newClus == 0 ==> vol.view == old(vol.view) && cat == old(cat)
      ensures newClus == 0 ==> forall x {:trigger vol.view.fat[x]} :: 2 <= x < |vol.view.fat| ==> vol.view.fat[x] != FREE
      ensures old(Bytes(fds[fd].cluster)) <= Bytes(fds[fd].cluster)
      ensures old(vol.history) <= vol.history
      ensures forall i {:trigger vol.history[i]} :: |old(vol.history)| <= i < |vol.history| ==>
                CrashSafe(vol.g, v0, cat0, vol.history[i])
    {
      hide Sees, Mirrored, Mul, Quot, Rem, DescsOk, Content, Capacity, WriterOk, WriterReady, OnlyFileGrew, Keeps;
      hide CrashSafe, Allocating, Volume.HistoryIsTrace, LinkedFat, Evolves, DescOk, Sound;
      ghost var f, v := fds[fd], vol.view;
      WriterLast(vol.g, v, cat, f);
      DescsClosed(vol.g, cat, fds[..], fd);
      newClus := vol.FatAlloc(fds[fd].cur);
      if newClus == 0 {
        return;
      }
      ghost var cat' := Extended(cat, f.cluster, newClus);
      WriterExtended(vol.g, v, cat, f, newClus, vol.view);
      forall i {:trigger vol.history[i]} | |old(vol.history)| <= i < |vol.history|
        ensures CrashSafe(vol.g, v0, cat0, vol.history[i])
      {
        ExtendingIsSafe(vol.g, v0, cat0, v, cat, f, newClus, vol.history[i]);
      }
      WriterGrew(vol.g, v0, cat0, v, cat, f, newClus, vol.view);
      SoundTree(vol.g, v, cat);
      DescsEvolve(vol.g, cat, cat', {f.cluster}, fds[..], fd);
      cat := cat';
    }

    /** The rest of the loop of `Write`: the bytes that fit the current sector. */
    method PutChunk(fd: nat, bytes: seq<Byte>, ghost v0: View, ghost cat0: Catalog) returns (n: nat)
      requires vol.Valid() && vol.g.secPerClus >= 2 && fds.Length == MAX_FD && fd < MAX_FD
      requires Consistent(vol.g, vol.view, cat) && DescsOk(vol.g, cat, fds[..][fd := CLOSED])
      requires IsWriter(fds[fd]) && WriterReady(vol.g, cat, fds[fd]) && SoleWriter(fds[..], fd)
      requires 0 < |bytes| && fds[fd].size + |bytes| < U32
      requires Keeps(v0, cat0, vol.view, cat) && OnlyFileGrew(v0, cat0, vol.view, cat, fds[fd].cluster)
      modifies fds, vol.Repr()
      ensures Good()
      ensures 0 < n <= |bytes|
      ensures Keeps(v0, cat0, vol.view, cat) && OnlyFileGrew(v0, cat0, vol.view, cat, fds[fd].cluster)
      ensures var f := old(fds[fd]);
        && fds[..] == old(fds[..])[fd := f.(pos := f.pos + n, size := f.size + n)]
        && Accepted(old(Bytes(f.cluster)), f.size, Bytes(f.cluster), bytes, n)
      ensures old(vol.history) <= vol.history
      ensures forall i {:trigger vol.history[i]} :: |old(vol.history)| <= i < |vol.history| ==>
                CrashSafe(vol.g, v0, cat0, vol.history[i])
    {
      hide Sees, Mirrored, Mul, Quot, Rem, Sound, DescsOk, Content, Capacity, WriterOk, WriterReady, OnlyFileGrew, Keeps;
      hide CrashSafe, Volume.HistoryIsTrace, FlatBytes, ChainSectors, View.Patch;
      ghost var f, v := fds[fd], vol.view;
      WriterReadyKnown(vol.g, cat, f);
      WriterSector(vol.g, v, cat, f);
      var clusterSize := vol.g.secPerClus * SECTOR_SIZE;
      var clusOff := Rem(fds[fd].pos, clusterSize);
      var secOff := clusOff / SECTOR_SIZE;
      var byteOff := clusOff % SECTOR_SIZE;
      var lba := vol.g.ClusterLba(fds[fd].cur) + secOff;
      n := SECTOR_SIZE - byteOff;
      if n > |bytes| {
        n := |bytes|;
      }
      vol.PatchData(lba, byteOff, bytes[..n], f.cur, Rem(f.pos / SECTOR_SIZE, vol.g.secPerClus));
      WriterPut(vol.g, v, cat, f, bytes[..n], vol.view);
      WriterPutGrew(vol.g, v0, cat0, v, cat, f, bytes[..n], vol.view);
      ghost var f' := f.(pos := f.pos + n, size := f.size + n);
      fds[fd] := fds[fd].(pos := fds[fd].pos + n);
      if fds[fd].pos > fds[fd].size {
        fds[fd] := fds[fd].(size := fds[fd].pos);
      }
      WriterMoved(vol.g, cat, f, n);
      assert fds[..] == old(fds[..])[fd := CLOSED][fd := f'];
      DescsOpened(vol.g, cat, old(fds[..])[fd := CLOSED], fd, f');
    }

    /** Records the size of a written file in its entry, and forgets the descriptor. */
    method Close(fd: int)
      requires Good()
      modifies this`cat, fds, vol.Repr()
      ensures Good()
      ensures fds[..] == if 0 <= fd < MAX_FD && old(fds[fd].open) then old(fds[..])[fd := CLOSED] else old(fds[..])
      ensures !(0 <= fd < MAX_FD && old(IsWriter(fds[fd]))) ==>
                vol.view == old(vol.view) && cat == old(cat) && vol.history == old(vol.history)
      ensures 0 <= fd < MAX_FD && old(IsWriter(fds[fd])) ==>
                var f := old(fds[fd]);
                && Owned(old(cat), f.cluster) && cat == Resized(old(cat), f.cluster, f.size)
                && (forall h {:trigger Bytes(h)} :: h in cat.chains && h !in cat.dirs ==> Bytes(h) == old(Bytes(h)))
                && vol.history == old(vol.history) + [vol.view] && vol.view.fat == old(vol.view).fat
                && CrashSafe(vol.g, old(vol.view), old(cat), vol.view)
    {
      hide Sees, Mirrored, Mul, Sound, DescsOk, DescOk, Content, CrashSafe, Volume.HistoryIsTrace, Owned, Resized;
      if fd < 0 || fd >= MAX_FD || !fds[fd].open {
        return;
      }
      DescsClosed(vol.g, cat, fds[..], fd);
      if fds[fd].write {
        RecordSize(fd);
      }
      fds[fd] := CLOSED;
    }

    /** The one sector write of `Close`. */
    method RecordSize(fd: nat)
      requires Good() && fd < MAX_FD && IsWriter(fds[fd])
      modifies this`cat, vol.Repr()
      ensures vol.Valid() && Consistent(vol.g, vol.view, cat) && DescsOk(vol.g, cat, fds[..][fd := CLOSED])
      ensures Owned(old(cat), fds[fd].cluster) && cat == Resized(old(cat), fds[fd].cluster, fds[fd].size)
      ensures forall h {:trigger Bytes(h)} :: h in cat.chains && h !in cat.dirs ==> Bytes(h) == old(Bytes(h))
      ensures vol.history == old(vol.history) + [vol.view] && vol.view.fat == old(vol.view).fat
      ensures CrashSafe(vol.g, old(vol.view), old(cat), vol.view)
    {
      hide Sees, Mirrored, Mul, Quot, Rem, DescsOk, DescOk, Content, Capacity, Volume.HistoryIsTrace, AtSector, At, Dir;
      hide Sound, StoredEntry, Resized, WriterOk, Keeps, Update83, Evolves, Retargeted, Consistent, CrashSafe, Owned, IsChain;
      hide ChainSectors, Geometry.ClusterLba, TreeOk, View.Patch;
      ghost var v, f := vol.view, fds[fd];
      DescAt(vol.g, cat, fds[..], fd);
      WriterEntry(vol.g, v, cat, f);
      ghost var r := cat.owner[f.cluster];
      ghost var ch := cat.chains[r.dir];
      var lba, off := fds[fd].dirLba, fds[fd].dirOffset;
      ghost var pos := EntryPlace(vol.g, ch, r.idx, lba, off);
      Locate(vol.g, v, ch, r.idx, pos);
      ghost var s := Rem(r.idx / PER_SECTOR, vol.g.secPerClus);
      vol.LoadData(lba, pos.cluster, s);
      var e := vol.cache[off..off + ENTRY_SIZE];
      var e' := Update83(e, fds[fd].cluster, fds[fd].size);
      PatchedEntry(vol.g, v, ch, r.idx, pos, e');
      vol.PatchData(lba, off, e', pos.cluster, s);
      PatchKeepsFat(v, pos.cluster, s, off, e');
      SizeRecorded(vol.g, v, cat, f.cluster, f.size, vol.view);
      DescsEvolve(vol.g, cat, Resized(cat, f.cluster, f.size), {f.cluster}, fds[..], fd);
      cat := Resized(cat, f.cluster, f.size);
    }

    /** The end of `Open` and `Mkdir`: the entry for the new cluster, or the cluster given back when there is no room. */
    method EnterOrRelease(parent: nat, name: Name, attr: Byte, newClus: nat, ghost v0: View, ghost sub: map<nat, seq<Cell>>)
      returns (ok: bool, pos: DirPos, ghost k: nat, ghost short: Short)
      requires vol.Valid() && vol.g.secPerClus >= 2 && Consistent(vol.g, v0, cat) && parent in cat.dirs && parent in cat.chains
      requires Storable(name) && Absent(cat.dirs[parent], name) && attr in {ATTR_DIR, ATTR_ARCHIVE}
      requires Stray(vol.g, v0, newClus, vol.view)
      requires FreshDir(vol.g, sub, newClus, attr) && Orderly(sub)
      requires newClus in sub ==> AllMatch(Dir(vol.view.data, [newClus]), sub[newClus])
      modifies this`cat, vol.Repr()
      ensures vol.Valid() && Consistent(vol.g, vol.view, cat)
      ensures !ok ==> cat == old(cat) && vol.view.fat == v0.fat && forall h | h in cat.chains :: Bytes(h) == Content(v0, cat, h)
      ensures !ok ==> forall x {:trigger v0.fat[x]} :: 2 <= x < |v0.fat| && v0.fat[x] == FREE ==> x == newClus
      ensures ok ==> EntryMade(v0, old(cat), vol.view, cat, parent, k, Entry83(name, short, attr, newClus, 0), sub)
      ensures ok ==> At(vol.g, cat.chains[parent], k, pos)
      ensures ok ==> ShortFor(name, Shorts(old(cat).dirs[parent]), short)
      ensures old(vol.history) <= vol.history
      ensures SafeIfRoom(vol.g, v0, old(cat), Target(parent, name), ok, old(vol.history), vol.history)
    {
      hide ShortFor;
      hide Sees, Mirrored, Mul, Quot, Rem, Sound, Content, Volume.HistoryIsTrace, At, Dir, AllMatch, FreshDir, Absent;
      hide AllSafe, HasRoom, ShowedStale, GrowthPassed, SafeIfRoom;
      hide CrashSafe, EntryMade, Grown, LinkedFat, Storable, Fitting, DirState, PartlyWritten, Shorts, WellRun, IsChain;
      hide Cleared, PartlyFreed, Orderly, Run, Entered, ChainFrom, Placed, Swept;
      ghost var v, cat0 := vol.view, cat;
      ghost var ch, cells := cat.chains[parent], cat.dirs[parent];
      StrayIsSafe(vol.g, v0, cat, newClus, v);
      StrayChain(vol.g, v0, newClus, v);
      DirReady(vol.g, v, WithChain(cat, newClus), {newClus}, {}, parent);
      ghost var p;
      ok, pos, p := DirAddEntry(vol, parent, name, attr, newClus, 0, ch, cells);
      k, short := p.at + Parts(name), p.short;
      if !ok {
        vol.FatFreeChain(newClus, [newClus]);
        StrayReleased(vol.g, v0, cat, newClus, v, vol.view, old(vol.history), vol.history);
        EachSafe(vol.g, v0, cat, old(vol.history), vol.history);
        RoomMatters(vol.g, v0, cat, parent, name, ok, old(vol.history), vol.history);
        return;
      }
      EntryIsMade(vol.g, v0, cat, newClus, v, parent, p, name, attr, sub, vol.view);
      EnteredWhere(vol.g, v, cat, newClus, parent, p, name, attr, sub);
      if p.grown == 0 {
        EnteringWasSafe(vol.g, v0, cat, newClus, v, parent, p, name, attr, sub, old(vol.history), vol.history);
        EachSafe(vol.g, v0, cat, old(vol.history), vol.history);
      } else {
        PlacedGrown(vol.g, v, ch, cells, p);
        GrowthIsUnsafe(vol.g, v0, cat, parent, newClus, v, p.grown, old(vol.history), vol.history);
      }
      RoomMatters(vol.g, v0, cat, parent, name, ok, old(vol.history), vol.history);
      cat := Entered(vol.g, WithChain(cat, newClus), parent, p, Run(name, p.short, attr, newClus, 0), newClus, sub);
    }

    /** The truncating part of `Open`: the file's chain is freed, then its entry gets a new cluster and size 0.  The
        allocation cannot fail, because a cluster was just freed. */
    method Truncate(pos: DirPos, e: Entry, ghost d: nat, ghost k: nat) returns (newClus: nat)
      requires vol.Valid() && Consistent(vol.g, vol.view, cat) && d in cat.dirs && k < |cat.dirs[d]|
      requires cat.dirs[d][k].Entry83? && cat.dirs[d][k].attr == ATTR_ARCHIVE && Matches(e, cat.dirs[d][k])
      requires d in cat.chains && At(vol.g, cat.chains[d], k, pos)
      modifies this`cat, vol.Repr()
      ensures vol.Valid() && Consistent(vol.g, vol.view, cat)
      ensures newClus != 0 && EntryRenewed(old(vol.view), old(cat), vol.view, cat, d, k, newClus)
      ensures old(vol.history) <= vol.history
      ensures UnsafeAtFirst(vol.g, old(vol.view), old(cat), Ref(d, k), old(vol.history), vol.history)
    {
      hide Sees, Mirrored, Mul, Quot, Rem, Sound, Content, Volume.HistoryIsTrace, At, Dir, AllMatch, CrashSafe, IsChain;
      hide Cleared, PartlyFreed, Orderly, ChainFrom, Swept, Undisturbed, Listing, Renewed, StoredEntry, LinkedFat, Matches;
      hide CrashSafeBut, UnsafeAtFirst;
      ghost var v, cat0, h, ch := vol.view, cat, cat.dirs[d][k].clus, cat.chains[d];
      CellCluster(e, cat.dirs[d][k]);
      FreedSound(vol.g, v, cat, d, k, v);
      var cluster := EntryCluster(e);
      if cluster >= 2 {
        vol.FatFreeChain(cluster, cat.chains[h]);
      }
      ghost var v1, freed := vol.view, vol.history;
      newClus := vol.FatAlloc(0);
      AllocStray(vol.g, v1, newClus, vol.view);
      ghost var v2 := vol.view;
      var e' := Update83(e, newClus, 0);
      RenewedReady(vol.g, v, cat, d, k, newClus, v1, v2);
      DirWriteEntry(vol, pos, e', ch, k);
      EntryIsRenewed(vol.g, v, cat, d, k, newClus, v1, v2, e, vol.view);
      RenewedIsSafe(vol.g, v, cat, d, k, newClus, vol.view);
      FreedAtFirst(vol.g, v, cat, d, k, old(vol.history), freed, vol.history);
      cat := Renewed(cat, d, k, newClus);
    }

    /** Where a path leads, by what the directories on the disk list. */
    ghost function Goal(path: Path): Target
      reads this
    {
      TargetOf(vol.g.rootCluster, cat.dirs, path)
    }

    /** Looks a name up in a directory of the catalog. */
    method FindIn(dir: nat, name: Name) returns (found: bool, e: Entry, pos: DirPos, start: DirPos, ghost k: nat)
      requires vol.Valid() && Consistent(vol.g, vol.view, cat) && dir in cat.dirs
      modifies vol`cacheDirty, vol`cacheLba, vol.cache, vol.disk, vol.disk.sectors
      ensures vol.Valid() && dir in cat.chains
      ensures found <==> Fold(name) in Listing(cat.dirs[dir])
      ensures found ==>
                && k < |cat.dirs[dir]| && cat.dirs[dir][k] == Listing(cat.dirs[dir])[Fold(name)] && cat.dirs[dir][k].Entry83?
                && Matches(e, cat.dirs[dir][k]) && At(vol.g, cat.chains[dir], k, pos)
                && Parts(cat.dirs[dir][k].name) <= k
                && At(vol.g, cat.chains[dir], k - Parts(cat.dirs[dir][k].name), start)
    {
      hide Sees, Mirrored, Mul, Quot, Rem, Sound, Volume.HistoryIsTrace, At, Dir, IsChain, Listing, Matches, WellRun;
      DirReady(vol.g, vol.view, cat, {}, {}, dir);
      hide Consistent;
      found, e, pos, start, k := DirFind(vol, dir, name, cat.chains[dir], cat.dirs[dir]);
      ListingAbsent(cat.dirs[dir], name);
      if found {
        ListingAt(cat.dirs[dir], k);
      }
    }

    method PathResolveParent(path: Path) returns (cluster: nat, name: Name)
      requires vol.Valid() && Consistent(vol.g, vol.view, cat)
      modifies vol`cacheDirty, vol`cacheLba, vol.cache, vol.disk, vol.disk.sectors
      ensures vol.Valid()
      ensures Goal(path) == if cluster == 0 then Nowhere else Target(cluster, name)
      ensures cluster != 0 ==> LeadsTo(vol.g.rootCluster, cat.dirs, path, cluster, name)
      ensures cluster == 0 ==> forall d: nat, n: Name {:trigger LeadsTo(vol.g.rootCluster, cat.dirs, path, d, n)} :: !LeadsTo(vol.g.rootCluster, cat.dirs, path, d, n)
      ensures cluster != 0 ==> cluster in cat.dirs
    {
      hide Sees, Mirrored, Sound, Volume.HistoryIsTrace, At, Listing, Matches, Fold, Head, Rest, LeadsTo;
      GoalLeads(vol.g, vol.view, cat, path);
      name := [];
      if |path| == 0 || path[0] != SLASH {
        return 0, name;
      }
      var root := vol.g.rootCluster;
      cluster := root;
      RootIsDir(vol.g, vol.view, cat);
      var p := 1;
      while p < |path|
        invariant 1 <= p <= |path|
        invariant vol.Valid() && cluster in cat.dirs && cluster != 0
        invariant Goal(path) == Resolve(vol.g.rootCluster, cat.dirs, cluster, path[p..])
      {
        var comp;
        ghost var rest := path[p..];
        comp, p := NextComponent(path, p);
        if p == |path| {
          return cluster, comp;
        }
        var found, e, pos, start;
        ghost var k;
        found, e, pos, start, k := FindIn(cluster, comp);
        if !found {
          return 0, name;
        }
        CellCluster(e, cat.dirs[cluster][k]);
        if e[11] / 16 % 2 == 0 {
          return 0, name;
        }
        SubdirIsDir(vol.g, vol.view, cat, cluster, k);
        var clus := EntryCluster(e);
        cluster := if clus == 0 then root else clus;
      }
      name := [];
    }

    method PathStat(path: Path) returns (found: bool, e: Entry, pos: DirPos, dirCluster: nat, ghost k: nat)
      requires vol.Valid() && Consistent(vol.g, vol.view, cat)
      modifies vol`cacheDirty, vol`cacheLba, vol.cache, vol.disk, vol.disk.sectors
      ensures vol.Valid()
      ensures path == [SLASH] ==>
                found && e[11] == ATTR_DIR && EntryCluster(e) == vol.g.rootCluster && EntrySize(e) == 0
      ensures path != [SLASH] ==>
                && (found <==> Present(cat.dirs, Goal(path)))
                && (found ==>
                      && dirCluster == Goal(path).dir && dirCluster in cat.chains
                      && k < |cat.dirs[dirCluster]| && cat.dirs[dirCluster][k] == Found(cat.dirs, Goal(path))
                      && cat.dirs[dirCluster][k].Entry83? && Matches(e, cat.dirs[dirCluster][k])
                      && At(vol.g, cat.chains[dirCluster], k, pos))
    {
      hide Sees, Mirrored, Sound, Volume.HistoryIsTrace, At, Listing, Matches, Fold, Consistent, TargetOf, LeadsTo;
      k := 0;
      pos := DirPos(0, 0, 0);
      if path == [SLASH] {
        e := seq(11, _ => 0) + [ATTR_DIR] + seq(8, _ => 0) + Le16(vol.g.rootCluster / 0x1_0000 % 0x1_0000) + seq(4, _ => 0)
          + Le16(vol.g.rootCluster % 0x1_0000) + seq(4, _ => 0);
        RootEntry(vol.g, e);
        return true, e, pos, 0, 0;
      }
      var name;
      dirCluster, name := PathResolveParent(path);
      e := seq(ENTRY_SIZE, _ => 0);
      if dirCluster == 0 || |name| == 0 {
        return false, e, pos, 0, 0;
      }
      var start;
      found, e, pos, start, k := FindIn(dirCluster, name);
    }

    /** Why `Open` would refuse, in the order it looks; 0 if it would not. */
    ghost function OpenError(path: Path, write: bool): int
      reads this, vol, fds
    {
      var t := Goal(path);
      if write && readonly then ERR_IO
      else if forall i | 0 <= i < fds.Length :: fds[i].open then ERR_NOMEM
      else if path == [SLASH] then ERR_ISDIR
      else if Present(cat.dirs, t) then if Found(cat.dirs, t).attr == ATTR_DIR then ERR_ISDIR else 0
      else if write && t.Target? then 0 else ERR_NOTFOUND
    }

    /** Opens a file for reading, or for writing from its start: a file there was is emptied first, and one there was
        not is created. */
    method Open(path: Path, write: bool) returns (fd: int)
      requires Good()
      requires write && path != [SLASH] ==>
                 if Present(cat.dirs, Goal(path)) then NotOpen(fds[..], Found(cat.dirs, Goal(path)).clus)
                 else Goal(path).Target? ==> Storable(Goal(path).name)
      modifies this`cat, fds, vol.Repr()
      ensures Good()
      ensures fd < 0 ==> fds[..] == old(fds[..])
      ensures old(OpenError(path, write)) != 0 ==>
                fd == old(OpenError(path, write)) && vol.view == old(vol.view) && cat == old(cat) && vol.history == old(vol.history)
      ensures old(OpenError(path, write)) == 0 && fd >= 0 ==>
                var t := old(Goal(path));
                && SlotTaken(old(fds[..]), fds[..], fd)
                && if !old(Present(cat.dirs, Goal(path))) then
                     FreshDesc(fds[fd], true, fds[fd].cluster, t.dir, 0)
                     && FileCreated(old(vol.view), old(cat), vol.view, cat, t, fds[fd].cluster)
                   else if write then
                     FreshDesc(fds[fd], true, fds[fd].cluster, t.dir, 0)
                     && FileRenewed(old(vol.view), old(cat), vol.view, cat, t, fds[fd].cluster)
                     && EmptiedUnsafely(vol.g, old(vol.view), old(cat), t, old(vol.history), vol.history)
                   else
                     FreshDesc(fds[fd], false, old(Found(cat.dirs, Goal(path))).clus, t.dir, old(Found(cat.dirs, Goal(path))).size)
                     && vol.view == old(vol.view) && cat == old(cat) && vol.history == old(vol.history)
      ensures old(OpenError(path, write)) == 0 && fd < 0 ==>
                && fd == ERR_FULL && !old(Present(cat.dirs, Goal(path)))
                && cat == old(cat) && vol.view.fat == old(vol.view).fat && forall h | h in cat.chains :: Bytes(h) == old(Bytes(h))
      ensures old(vol.history) <= vol.history
      ensures !old(Present(cat.dirs, Goal(path))) ==>
                SafeIfRoom(vol.g, old(vol.view), old(cat), old(Goal(path)), fd >= 0, old(vol.history), vol.history)
    {
      hide Consistent, Sees, Mirrored, Volume.HistoryIsTrace, DescsOk, TargetOf, CrashSafe, FileCreated, At;
      hide SafeIfRoom;
      NothingUnsafe(vol.g, vol.view, cat, Goal(path), vol.history);
      hide Listing, Content, Storable, NotOpen, Fold, EntryRenewed, Matches, UnsafeAtFirst;
      if write && readonly {
        return ERR_IO;
      }
      fd := 0;
      while fd < MAX_FD && fds[fd].open
        invariant 0 <= fd <= MAX_FD
        invariant forall i {:trigger fds[i]} :: 0 <= i < fd ==> fds[i].open
      {
        fd := fd + 1;
      }
      if fd == MAX_FD {
        return ERR_NOMEM;
      }
      var found, e, pos, dirCluster;
      ghost var k;
      found, e, pos, dirCluster, k := PathStat(path);
      if found {
        if path != [SLASH] {
          CellCluster(e, cat.dirs[dirCluster][k]);
        }
        if e[11] / 16 % 2 == 1 {
          return ERR_ISDIR;
        }
        OpenExisting(fd, e, pos, dirCluster, write, k);
        assert EntryIs(old(cat), old(Goal(path)), k);
      } else {
        if !write {
          return ERR_NOTFOUND;
        }
        fd := CreateFile(fd, path);
      }
    }

    /** A descriptor for a file that is there. */
    method OpenExisting(fd: nat, e: Entry, pos: DirPos, dirCluster: nat, write: bool, ghost k: nat)
      requires Good() && fd < MAX_FD && !fds[fd].open
      requires dirCluster in cat.dirs && dirCluster in cat.chains && k < |cat.dirs[dirCluster]|
      requires cat.dirs[dirCluster][k].Entry83? && cat.dirs[dirCluster][k].attr == ATTR_ARCHIVE
      requires Matches(e, cat.dirs[dirCluster][k]) && At(vol.g, cat.chains[dirCluster], k, pos)
      requires write ==> NotOpen(fds[..], cat.dirs[dirCluster][k].clus)
      modifies this`cat, fds, vol.Repr()
      ensures Good() && fds[..] == old(fds[..])[fd := fds[fd]]
      ensures write ==>
                && FreshDesc(fds[fd], true, fds[fd].cluster, dirCluster, 0)
                && EntryRenewed(old(vol.view), old(cat), vol.view, cat, dirCluster, k, fds[fd].cluster)
                && UnsafeAtFirst(vol.g, old(vol.view), old(cat), Ref(dirCluster, k), old(vol.history), vol.history)
      ensures !write ==>
                var c := old(cat).dirs[dirCluster][k];
                && FreshDesc(fds[fd], false, c.clus, dirCluster, c.size)
                && vol.view == old(vol.view) && cat == old(cat) && vol.history == old(vol.history)
      ensures old(vol.history) <= vol.history
    {
      hide Consistent, Sees, Mirrored, Volume.HistoryIsTrace, DescsOk, CrashSafe, EntryRenewed, At, AtSector, Matches;
      hide DescOk, NotOpen, UnsafeAtFirst;
      CellCluster(e, cat.dirs[dirCluster][k]);
      var cluster := EntryCluster(e);
      ghost var v, cat0 := vol.view, cat;
      if write {
        cluster := Truncate(pos, e, dirCluster, k);
        RenewedDescs(vol.g, v, cat0, vol.view, cat, dirCluster, k, cluster, fds[..], pos);
      } else {
        NewReader(vol.g, vol.view, cat, dirCluster, k, pos);
      }
      var f := FileDesc(true, write, cluster, dirCluster, pos.lba, pos.off, if write then 0 else EntrySize(e), 0, cluster);
      if write {
        NewIsSole(fds[..], fd, f);
      }
      DescsOpened(vol.g, cat, fds[..], fd, f);
      fds[fd] := f;
    }

    /** A descriptor for a file that is not there yet, or `ERR_FULL`. */
    method CreateFile(fd: nat, path: Path) returns (result: int)
      requires Good() && fd < MAX_FD && !fds[fd].open
      requires path != [SLASH] && !Present(cat.dirs, Goal(path)) && (Goal(path).Target? ==> Storable(Goal(path).name))
      modifies this`cat, fds, vol.Repr()
      ensures Good()
      ensures result in {fd, ERR_NOTFOUND, ERR_FULL}
      ensures result == ERR_NOTFOUND <==> !old(Goal(path)).Target?
      ensures result == fd ==>
                && fds[..] == old(fds[..])[fd := fds[fd]]
                && FreshDesc(fds[fd], true, fds[fd].cluster, old(Goal(path)).dir, 0)
                && FileCreated(old(vol.view), old(cat), vol.view, cat, old(Goal(path)), fds[fd].cluster)
      ensures result != fd ==>
                && fds[..] == old(fds[..]) && cat == old(cat) && vol.view.fat == old(vol.view).fat
                && forall h | h in cat.chains :: Bytes(h) == old(Bytes(h))
      ensures result == ERR_NOTFOUND ==> vol.view == old(vol.view) && vol.history == old(vol.history)
      ensures old(vol.history) <= vol.history
      ensures SafeIfRoom(vol.g, old(vol.view), old(cat), old(Goal(path)), result == fd, old(vol.history), vol.history)
    {
      hide Consistent, Sees, Mirrored, Volume.HistoryIsTrace, DescsOk, Listing, Fold, TargetOf, Absent;
      hide SafeIfRoom, FileCreated, Content, LeadsTo;
      NothingUnsafe(vol.g, vol.view, cat, Goal(path), vol.history);
      var parent, name := PathResolveParent(path);
      if parent == 0 {
        return ERR_NOTFOUND;
      }
      ListingAbsent(cat.dirs[parent], name);
      var ok := MakeFile(fd, parent, name);
      result := if ok then fd else ERR_FULL;
    }

    /** The part of `CreateFile` that changes the disk. */
    method MakeFile(fd: nat, parent: nat, name: Name) returns (ok: bool)
      requires Good() && fd < MAX_FD && !fds[fd].open
      requires parent in cat.dirs && Storable(name) && Absent(cat.dirs[parent], name)
      modifies this`cat, fds, vol.Repr()
      ensures Good()
      ensures ok ==>
                && fds[..] == old(fds[..])[fd := fds[fd]]
                && FreshDesc(fds[fd], true, fds[fd].cluster, parent, 0)
                && FileCreated(old(vol.view), old(cat), vol.view, cat, Target(parent, name), fds[fd].cluster)
      ensures !ok ==>
                && fds[..] == old(fds[..]) && cat == old(cat) && vol.view.fat == old(vol.view).fat
                && forall h | h in cat.chains :: Bytes(h) == old(Bytes(h))
      ensures old(vol.history) <= vol.history
      ensures SafeIfRoom(vol.g, old(vol.view), old(cat), Target(parent, name), ok, old(vol.history), vol.history)
    {
      hide Sound, Sees, Mirrored, Volume.HistoryIsTrace, DescsOk, CrashSafe, At, AtSector, Listing, Fold, Make83;
      hide EntryMade, Stray, Content, DescOk, Allocating, LinkedFat, AllMatch, Dir, Absent, Orderly, SafeIfRoom, AllSafe;
      NothingUnsafe(vol.g, vol.view, cat, Target(parent, name), vol.history);
      ghost var v, cat0 := vol.view, cat;
      DirReadyNow(vol.g, v, cat, parent);
      var newClus := AllocNew();
      if newClus == 0 {
        return false;
      }
      var pos;
      ghost var k, short, h1 := 0, Make83(name), vol.history;
      ok, pos, k, short := EnterOrRelease(parent, name, ATTR_ARCHIVE, newClus, v, map[]);
      SafeTogether(vol.g, v, cat0, Target(parent, name), ok, old(vol.history), h1, vol.history);
      if !ok {
        return;
      }
      MadeDescs(vol.g, v, cat0, vol.view, cat, parent, k, Entry83(name, short, ATTR_ARCHIVE, newClus, 0), fds[..], pos);
      var f := FileDesc(true, true, newClus, parent, pos.lba, pos.off, 0, 0, newClus);
      NewIsSole(fds[..], fd, f);
      DescsOpened(vol.g, cat, fds[..], fd, f);
      fds[fd] := f;
    }

    /** What `Open` does, creating, on a path with an empty last component: the file gets an entry without a name, and the
        root then reads as no consistent volume's does. */
    method CreateNameless(fd: nat, path: Path) returns (result: int, ghost p: Placement)
      requires Good() && fd < MAX_FD && !fds[fd].open
      requires TwoSlashesLast(path) && Goal(path).Target?
      modifies fds, vol.Repr()
      ensures vol.Valid() && result in {fd, ERR_FULL} && Goal(path) == old(Goal(path)) && Goal(path).dir in cat.dirs
      ensures result == fd ==>
                && fds[..] == old(fds[..])[fd := fds[fd]]
                && FreshDesc(fds[fd], true, fds[fd].cluster, Goal(path).dir, 0)
                && IsChain(vol.g, vol.view.fat, p.ch) && p.ch[0] == Goal(path).dir
                && NamelessAt(Dir(vol.view.data, p.ch), p, ATTR_ARCHIVE, fds[fd].cluster, 0)
                && ShortFor([], Shorts(cat.dirs[Goal(path).dir]), p.short)
                && (Make83([]) !in Shorts(cat.dirs[Goal(path).dir]) ==> p.short == seq(11, _ => SPACE))
      ensures result == fd && Goal(path).dir == vol.g.rootCluster ==>
                forall cat' :: !Consistent(vol.g, vol.view, cat')
      ensures result == ERR_FULL ==> Consistent(vol.g, vol.view, cat) && fds[..] == old(fds[..]) && vol.view.fat == old(vol.view).fat
    {
      hide Sees, Mirrored, Volume.HistoryIsTrace, DescsOk, Listing, Fold, TargetOf, Sound, Content, Stray, At, Dir, AllMatch;
      hide WellRun, CrashSafe, AllSafe, Orderly, LinkedFat, NamelessAt, IsChain, Make83, Shorts, HasRoom, Cleared, PartlyFreed;
      hide ChainFrom, Swept, LeadsTo, ShortFor;
      EmptyNameExactly(vol.g.rootCluster, cat.dirs, path);
      ghost var v := vol.view;
      var parent, name := PathResolveParent(path);
      DirReadyNow(vol.g, v, cat, parent);
      var newClus := AllocNew();
      if newClus == 0 {
        return ERR_FULL, Placement([], [], 0, 0, Make83([]));
      }
      StrayIsSafe(vol.g, v, cat, newClus, vol.view);
      StrayChain(vol.g, v, newClus, vol.view);
      DirReady(vol.g, vol.view, WithChain(cat, newClus), {newClus}, {}, parent);
      HeadOf(vol.g, v, cat, parent);
      ghost var v1, h1 := vol.view, vol.history;
      var ok, pos;
      ok, pos, p := DirAddNameless(vol, parent, ATTR_ARCHIVE, newClus, 0, cat.chains[parent], cat.dirs[parent]);
      if !ok {
        vol.FatFreeChain(newClus, [newClus]);
        StrayReleased(vol.g, v, cat, newClus, v1, vol.view, h1, vol.history);
        return ERR_FULL, p;
      }
      fds[fd] := FileDesc(true, true, newClus, parent, pos.lba, pos.off, 0, 0, newClus);
      result := fd;
      NobodyReads(vol.g, vol.view, p, ATTR_ARCHIVE, newClus);
    }

    /** The first step of making a file or a directory: a cluster for it. */
    method AllocNew() returns (newClus: nat)
      requires vol.Valid() && Consistent(vol.g, vol.view, cat)
      modifies vol.Repr()
      ensures vol.Valid()
      ensures newClus == 0 ==> vol.view == old(vol.view) && vol.history == old(vol.history)
      ensures newClus == 0 ==> forall x {:trigger vol.view.fat[x]} :: 2 <= x < |vol.view.fat| ==> vol.view.fat[x] != FREE
      ensures newClus != 0 ==> Stray(vol.g, old(vol.view), newClus, vol.view)
      ensures newClus != 0 ==> vol.view.data == old(vol.view).data[newClus := ZeroSectors(vol.g.secPerClus)]
      ensures old(vol.history) <= vol.history
      ensures AllSafe(vol.g, old(vol.view), cat, old(vol.history), vol.history)
    {
      hide Consistent, Sees, Mirrored, Volume.HistoryIsTrace, CrashSafe, Stray, Allocating, LinkedFat;
      ConsistentFits(vol.g, vol.view, cat);
      newClus := vol.FatAlloc(0);
      if newClus != 0 {
        AllocStray(vol.g, old(vol.view), newClus, vol.view);
        forall i {:trigger vol.history[i]} | |old(vol.history)| <= i < |vol.history|
          ensures CrashSafe(vol.g, old(vol.view), cat, vol.history[i])
        {
          AllocatingIsStray(vol.g, old(vol.view), newClus, vol.history[i]);
          StrayIsSafe(vol.g, old(vol.view), cat, newClus, vol.history[i]);
        }
      }
    }

    /** Makes an empty directory. */
    method Mkdir(path: Path) returns (err: int, ghost c: nat)
      requires Good()
      requires path != [SLASH] && !Present(cat.dirs, Goal(path)) && Goal(path).Target? && Goal(path).name != [] ==>
                 Storable(Goal(path).name)
      modifies this`cat, vol.Repr()
      ensures Good()
      ensures err == ERR_EXISTS <==> path == [SLASH] || old(Present(cat.dirs, Goal(path)))
      ensures err == ERR_NOTFOUND <==>
                path != [SLASH] && !old(Present(cat.dirs, Goal(path))) && (old(Goal(path)).Target? ==> old(Goal(path)).name == [])
      ensures err in {ERR_EXISTS, ERR_NOTFOUND} ==> vol.view == old(vol.view) && cat == old(cat) && vol.history == old(vol.history)
      ensures err in {OK, ERR_EXISTS, ERR_NOTFOUND, ERR_FULL}
      ensures err == ERR_FULL ==> cat == old(cat) && vol.view.fat == old(vol.view).fat && forall h | h in cat.chains :: Bytes(h) == old(Bytes(h))
      ensures err == OK ==> DirMade(vol.g, old(vol.view), old(cat), vol.view, cat, old(Goal(path)), c)
      ensures err == OK ==> forall n: Name {:trigger Below(path, n)} :: n != [] && |n| < 256 && SLASH !in n ==>
                Goal(Below(path, n)) == Target(c, n)
      ensures old(vol.history) <= vol.history
      ensures SafeIfRoom(vol.g, old(vol.view), old(cat), old(Goal(path)), err == OK, old(vol.history), vol.history)
    {
      hide Consistent, Sees, Mirrored, Volume.HistoryIsTrace, DescsOk, Listing, Fold, TargetOf, Storable, Absent, Matches;
      hide SafeIfRoom, DirMade, Content, At, LeadsTo;
      NothingUnsafe(vol.g, vol.view, cat, Goal(path), vol.history);
      var found, e, pos0, dirCluster;
      ghost var k0;
      found, e, pos0, dirCluster, k0 := PathStat(path);
      c := 0;
      if found {
        return ERR_EXISTS, c;
      }
      var parent, name := PathResolveParent(path);
      if parent == 0 || |name| == 0 {
        return ERR_NOTFOUND, c;
      }
      ListingAbsent(cat.dirs[parent], name);
      var ok;
      ok, c := MakeDir(parent, name);
      err := if ok then OK else ERR_FULL;
      if ok {
        MadeBelow(vol.g, old(vol.view), old(cat), vol.view, cat, path, c);
      }
    }

    /** The part of `Mkdir` that changes the disk. */
    method MakeDir(parent: nat, name: Name) returns (ok: bool, ghost c: nat)
      requires Good() && parent in cat.dirs && Storable(name) && Absent(cat.dirs[parent], name)
      modifies this`cat, vol.Repr()
      ensures Good()
      ensures !ok ==> cat == old(cat) && vol.view.fat == old(vol.view).fat && forall h | h in cat.chains :: Bytes(h) == old(Bytes(h))
      ensures ok ==> DirMade(vol.g, old(vol.view), old(cat), vol.view, cat, Target(parent, name), c)
      ensures old(vol.history) <= vol.history
      ensures SafeIfRoom(vol.g, old(vol.view), old(cat), Target(parent, name), ok, old(vol.history), vol.history)
    {
      hide Sound, Sees, Mirrored, Volume.HistoryIsTrace, DescsOk, CrashSafe, Listing, Fold, Stray, Content, DescOk, Absent;
      hide Orderly, SafeIfRoom, AllSafe, DirMade;
      NothingUnsafe(vol.g, vol.view, cat, Target(parent, name), vol.history);
      ghost var v, cat0 := vol.view, cat;
      DirReadyNow(vol.g, v, cat, parent);
      var newClus := AllocNew();
      if newClus == 0 {
        return false, newClus;
      }
      ghost var h1 := vol.history;
      ok := EnterDir(parent, name, newClus, v);
      c := newClus;
      SafeTogether(vol.g, v, cat0, Target(parent, name), ok, old(vol.history), h1, vol.history);
    }

    /** The rest of `Mkdir`, once there is a cluster for the directory. */
    method EnterDir(parent: nat, name: Name, newClus: nat, ghost v0: View) returns (ok: bool)
      requires vol.Valid() && vol.g.secPerClus >= 2 && fds.Length == MAX_FD && Consistent(vol.g, v0, cat)
      requires DescsOk(vol.g, cat, fds[..])
      requires parent in cat.dirs && parent in cat.chains && vol.g.IsCluster(parent)
      requires Storable(name) && Absent(cat.dirs[parent], name)
      requires Stray(vol.g, v0, newClus, vol.view) && vol.view.data == v0.data[newClus := ZeroSectors(vol.g.secPerClus)]
      modifies this`cat, vol.Repr()
      ensures Good()
      ensures !ok ==> cat == old(cat) && vol.view.fat == v0.fat && forall h | h in cat.chains :: Bytes(h) == Content(v0, cat, h)
      ensures ok ==> DirMade(vol.g, v0, old(cat), vol.view, cat, Target(parent, name), newClus)
      ensures old(vol.history) <= vol.history
      ensures SafeIfRoom(vol.g, v0, old(cat), Target(parent, name), ok, old(vol.history), vol.history)
    {
      hide AllSafe, SafeIfRoom;
      hide Sound, Sees, Mirrored, Volume.HistoryIsTrace, DescsOk, CrashSafe, At, Listing, Fold, Storable, Stray;
      hide EntryMade, Content, AllMatch, Dir, Absent, Orderly, FreshDir, DotCells, Consistent;
      ghost var cat0 := cat;
      WriteDots(newClus, parent, v0);
      ghost var sub := map[newClus := DotCells(vol.g, newClus, parent)];
      StrayChain(vol.g, v0, newClus, vol.view);
      DotCellsFine(vol.g, newClus, parent);
      var pos;
      ghost var k, short, h1 := 0, Make83(name), vol.history;
      EachSafe(vol.g, v0, cat, old(vol.history), h1);
      ok, pos, k, short := EnterOrRelease(parent, name, ATTR_DIR, newClus, v0, sub);
      SafeTogether(vol.g, v0, cat0, Target(parent, name), ok, old(vol.history), h1, vol.history);
      if ok {
        DotsOnDisk(vol.g, v0, cat0, vol.view, cat, parent, k, Entry83(name, short, ATTR_DIR, newClus, 0));
        DescsStayMade(vol.g, v0, cat0, vol.view, cat, parent, k, Entry83(name, short, ATTR_DIR, newClus, 0), sub, fds[..]);
      }
    }

    /** The dot entries of a new directory, in one sector write. */
    method WriteDots(newClus: nat, parent: nat, ghost v0: View)
      requires vol.Valid() && vol.g.secPerClus >= 2 && vol.g.IsCluster(parent) && Consistent(vol.g, v0, cat)
      requires Stray(vol.g, v0, newClus, vol.view) && vol.view.data == v0.data[newClus := ZeroSectors(vol.g.secPerClus)]
      modifies vol.Repr()
      ensures vol.Valid() && Stray(vol.g, v0, newClus, vol.view)
      ensures AllMatch(Dir(vol.view.data, [newClus]), DotCells(vol.g, newClus, parent))
      ensures vol.history == old(vol.history) + [vol.view] && CrashSafe(vol.g, v0, cat, vol.view)
    {
      hide Sees, Mirrored, Volume.HistoryIsTrace, CrashSafe, Matches, AllMatch, Dir, Consistent, DotCells, Mul;
      StrayChain(vol.g, v0, newClus, vol.view);
      ghost var v := vol.view;
      var dot := BuildDot(false, newClus);
      var parentClus := if parent == vol.g.rootCluster then 0 else parent;
      var dotdot := BuildDot(true, parentClus);
      var lba := vol.g.ClusterLba(newClus);
      var both: seq<Byte> := dot[..] + dotdot[..];
      vol.PatchData(lba, 0, both, newClus, 0);
      DotsWritten(vol.g, v, newClus, parent, dot, dotdot);
      StrayIsSafe(vol.g, v0, cat, newClus, vol.view);
    }

    /** Removes a file: its chain is freed, then the records of its name and its short entry are marked deleted. */
    method Unlink(path: Path) returns (err: int)
      requires Good()
      requires Present(cat.dirs, Goal(path)) ==> NotOpen(fds[..], Found(cat.dirs, Goal(path)).clus)
      modifies this`cat, vol.Repr()
      ensures Good()
      ensures err == if !old(Present(cat.dirs, Goal(path))) then ERR_NOTFOUND
                     else if old(Found(cat.dirs, Goal(path))).attr == ATTR_DIR then ERR_ISDIR else OK
      ensures err != OK ==> vol.view == old(vol.view) && cat == old(cat) && vol.history == old(vol.history)
      ensures err == OK ==> FileRemoved(old(vol.view), old(cat), vol.view, cat, old(Goal(path)))
      ensures old(vol.history) <= vol.history
      ensures err == OK ==>
                RemovedUnsafely(vol.g, old(vol.view), old(cat), old(Goal(path)), old(vol.history), vol.history)
    {
      hide UnsafeUntilDone, LeadsTo;
      hide Consistent, Sees, Mirrored, Volume.HistoryIsTrace, DescsOk, TargetOf, CrashSafe, At, Matches;
      hide Listing, NotOpen, Fold, EntryRemoved;
      var dirCluster, name := PathResolveParent(path);
      if dirCluster == 0 || |name| == 0 {
        return ERR_NOTFOUND;
      }
      var found, e, pos, lfnStart;
      ghost var k;
      found, e, pos, lfnStart, k := FindIn(dirCluster, name);
      if !found {
        return ERR_NOTFOUND;
      }
      CellCluster(e, cat.dirs[dirCluster][k]);
      if e[11] / 16 % 2 == 1 {
        return ERR_ISDIR;
      }
      Remove(e, pos, lfnStart, dirCluster, k);
      assert EntryIs(old(cat), old(Goal(path)), k);
      err := OK;
    }

    /** The part of `Unlink` that changes the disk. */
    method Remove(e: Entry, pos: DirPos, lfnStart: DirPos, ghost d: nat, ghost k: nat)
      requires Good() && d in cat.dirs && d in cat.chains && k < |cat.dirs[d]|
      requires cat.dirs[d][k].Entry83? && cat.dirs[d][k].attr == ATTR_ARCHIVE && Matches(e, cat.dirs[d][k])
      requires At(vol.g, cat.chains[d], k, pos) && Parts(cat.dirs[d][k].name) <= k
      requires At(vol.g, cat.chains[d], k - Parts(cat.dirs[d][k].name), lfnStart)
      requires NotOpen(fds[..], cat.dirs[d][k].clus)
      modifies this`cat, vol.Repr()
      ensures Good() && EntryRemoved(old(vol.view), old(cat), vol.view, cat, d, k)
      ensures old(vol.history) <= vol.history
      ensures UnsafeUntilDone(vol.g, old(vol.view), old(cat), Ref(d, k), old(vol.history), vol.history)
    {
      hide Consistent, Sees, Mirrored, Volume.HistoryIsTrace, DescsOk, CrashSafe, At, Dir, AllMatch, IsChain, DirState, Sound;
      hide NotOpen, Cleared, PartlyFreed, ChainFrom, Swept, EntryRemoved, Removed, Matches, Erased, WellRun;
      hide CrashSafeBut, EntryThere, UnsafeUntilDone;
      ghost var v, h, ch, cells := vol.view, cat.dirs[d][k].clus, cat.chains[d], cat.dirs[d];
      CellCluster(e, cells[k]);
      FreedSound(vol.g, v, cat, d, k, v);
      var cluster := EntryCluster(e);
      if cluster >= 2 {
        vol.FatFreeChain(cluster, cat.chains[h]);
      }
      ghost var v1, freed := vol.view, vol.history;
      FreedDir(vol.g, v, cat, d, k, v1);
      EraseRun(lfnStart, pos, ch, cells, k);
      RemovedSound(vol.g, v, cat, d, k, v1, vol.view);
      RemovedDisturbsNothing(vol.g, v, cat, d, k, v1, vol.view);
      RemovedDescs(vol.g, v, cat, vol.view, Removed(cat, d, k), d, k, fds[..]);
      RemovedIsSafe(vol.g, v, cat, d, k, v1, vol.view);
      FreedThenErased(vol.g, v, cat, d, k, v1, old(vol.history), freed, vol.history);
      cat := Removed(cat, d, k);
    }

    /** Marks the entries from `start` to `pos` deleted, one sector write each. */
    method EraseRun(start: DirPos, pos: DirPos, ghost ch: seq<nat>, ghost cells: seq<Cell>, ghost k: nat)
      requires vol.Valid() && IsChain(vol.g, vol.view.fat, ch) && AllMatch(Dir(vol.view.data, ch), cells)
      requires k < |cells| && cells[k].Entry83? && Parts(cells[k].name) <= k
      requires At(vol.g, ch, k, pos) && At(vol.g, ch, k - Parts(cells[k].name), start)
      modifies vol.Repr()
      ensures vol.Valid()
      ensures DirState(vol.g, old(vol.view), ch, Erased(cells, k, Parts(cells[k].name) + 1), vol.view)
      ensures old(vol.history) <= vol.history && |old(vol.history)| < |vol.history|
      ensures vol.history[|vol.history| - 1] == vol.view
      ensures forall i {:trigger vol.history[i]} :: |old(vol.history)| <= i < |vol.history| - 1 ==>
                EntryThere(old(vol.view), ch, k, cells[k], vol.history[i])
    {
      hide Sees, Mirrored, Volume.HistoryIsTrace, At, Dir, AllMatch, IsChain, StoredEntry, View.Patch, Erased, Mul, Quot, Rem;
      hide EntryThere;
      ghost var v, first := vol.view, k - Parts(cells[k].name);
      ghost var n := 0;
      var del := start;
      ErasedNext(cells, k, 0);
      while true
        invariant 0 <= n <= Parts(cells[k].name)
        invariant vol.Valid() && DirState(vol.g, v, ch, Erased(cells, k, n), vol.view)
        invariant At(vol.g, ch, first + n, del)
        invariant old(vol.history) <= vol.history
        invariant forall i {:trigger vol.history[i]} :: |old(vol.history)| <= i < |vol.history| ==>
                    EntryThere(v, ch, k, cells[k], vol.history[i])
        decreases Parts(cells[k].name) - n
      {
        Locate(vol.g, vol.view, ch, first + n, del);
        MarkedEntry(vol.g, vol.view, ch, first + n, del);
        ErasingStep(vol.g, v, ch, cells, k, n, vol.view);
        vol.PatchData(del.lba, del.off, [DELETED], del.cluster, Rem((first + n) / PER_SECTOR, vol.g.secPerClus));
        AtInjective(vol.g, v.fat, ch, first + n, del, k, pos);
        if del.lba == pos.lba && del.off == pos.off {
          break;
        }
        ErasingLeavesEntry(vol.g, v, ch, cells, k, n + 1, vol.view);
        AtBound(vol.g, ch, k, pos);
        var more, next := DirNext(vol, del, ch, first + n);
        if !more {
          break;
        }
        del := next;
        n := n + 1;
      }
    }
  }

  lemma ReaderContent(g: Geometry, v: View, cat: Catalog, f: FileDesc)
    requires g.Valid() && Sound(g, v, cat, {}, {}) && ReaderOk(g, cat, f)
    ensures |Content(v, cat, f.cluster)| == Capacity(g, |cat.chains[f.cluster]|) >= f.size
  {
    ChainOf(g, v.fat, cat, f.cluster);
    ChainCovered(g, v, cat.chains[f.cluster]);
    ChainLength(g.secPerClus, v.data, cat.chains[f.cluster]);
  }

  /** The sector a reader is about to read. */
  lemma ReaderSector(g: Geometry, v: View, cat: Catalog, f: FileDesc)
    requires g.Valid() && Sound(g, v, cat, {}, {}) && ReaderOk(g, cat, f) && f.pos < f.size
    ensures var ch, m := cat.chains[f.cluster], f.pos / SECTOR_SIZE;
      var q, s := Quot(m, g.secPerClus), Rem(m, g.secPerClus);
      && q < |ch| && g.IsCluster(ch[q]) && f.cur == ch[q] && s < g.secPerClus
      && m < |ChainSectors(v.data, ch)| && ChainSectors(v.data, ch)[m] == v.data[ch[q]][s]
  {
    hide Mul, Quot, Rem, ChainSectors, TreeOk, DirsOk, Homed, Linked, InUse, Distinct;
    var ch, m := cat.chains[f.cluster], f.pos / SECTOR_SIZE;
    QuotRem(g.secPerClus, m);
    ChainOf(g, v.fat, cat, f.cluster);
    ChainCovered(g, v, ch);
    ChainSectorAt(g.secPerClus, v.data, ch, Quot(m, g.secPerClus), Rem(m, g.secPerClus));
  }

  /** A reader that moved to the end of its sector, or within it, stands where the next byte is: the chain was followed
      exactly when a cluster was finished. */
  lemma ReaderMoves(g: Geometry, v: View, cat: Catalog, f: FileDesc, f': FileDesc)
    requires g.Valid() && Sound(g, v, cat, {}, {}) && ReaderOk(g, cat, f) && f.pos < f.size
    requires f.cur < |v.fat|
    requires f' == f.(pos := f'.pos, cur := f'.cur)
    requires f.pos < f'.pos <= f.size && f'.pos <= f.pos / SECTOR_SIZE * SECTOR_SIZE + SECTOR_SIZE
    requires f'.cur == if Rem(f'.pos, g.secPerClus * SECTOR_SIZE) == 0 then v.fat[f.cur] else f.cur
    ensures ReaderOk(g, cat, f')
  {
    hide Mul, Quot, Rem, Sound, IsChain, Capacity;
    var ch, m := cat.chains[f.cluster], f.pos / SECTOR_SIZE;
    var q := Quot(m, g.secPerClus);
    PositionSplit(g, f'.pos);
    if f'.pos < m * SECTOR_SIZE + SECTOR_SIZE {
      assert f'.pos / SECTOR_SIZE == m && f'.pos % SECTOR_SIZE > 0;
    } else {
      assert f'.pos / SECTOR_SIZE == m + 1 && f'.pos % SECTOR_SIZE == 0;
      QuotRemNext(g.secPerClus, m);
      QuotRem(g.secPerClus, m);
      if f'.pos < f.size {
        ReaderLastCluster(g, f'.pos, |ch|);
        NextInChain(g, v, cat, f.cluster, q);
      }
    }
  }

  lemma NextInChain(g: Geometry, v: View, cat: Catalog, h: nat, q: nat)
    requires Sound(g, v, cat, {}, {}) && h in cat.chains && q < |cat.chains[h]|
    ensures cat.chains[h][q] < |v.fat|
    ensures q + 1 < |cat.chains[h]| ==> v.fat[cat.chains[h][q]] == cat.chains[h][q + 1]
    ensures q + 1 == |cat.chains[h]| ==> v.fat[cat.chains[h][q]] >= EOC
  {
    ChainOf(g, v.fat, cat, h);
    assert v.fat[cat.chains[h][q]] == v.fat[cat.chains[h][q]];
  }

  lemma ReaderLastCluster(g: Geometry, pos: nat, n: nat)
    requires g.secPerClus > 0 && pos < Capacity(g, n)
    ensures Quot(pos / SECTOR_SIZE, g.secPerClus) < n
  {
    var m := pos / SECTOR_SIZE;
    QuotRem(g.secPerClus, m);
    Digits(g.secPerClus, n, 0, Quot(m, g.secPerClus), Rem(m, g.secPerClus));
  }

  lemma ReaderInTable(g: Geometry, v: View, cat: Catalog, f: FileDesc)
    requires g.Valid() && Sound(g, v, cat, {}, {}) && ReaderOk(g, cat, f) && f.pos < f.size
    ensures f.cur < |v.fat| == g.totalClusters + 2
  {
    ReaderSector(g, v, cat, f);
  }

  lemma ReaderKnown(g: Geometry, cat: Catalog, f: FileDesc)
    requires g.secPerClus > 0 && ReaderOk(g, cat, f)
    ensures f.cluster in cat.chains && f.pos <= f.size
  {
  }

  lemma DescAt(g: Geometry, cat: Catalog, fds: seq<FileDesc>, i: nat)
    requires g.secPerClus > 0 && DescsOk(g, cat, fds) && i < |fds|
    ensures fds[i].open ==> if fds[i].write then WriterOk(g, cat, fds[i]) else ReaderOk(g, cat, fds[i])
    ensures fds[i := fds[i]] == fds
  {
    assert DescOk(g, cat, fds[i]);
  }

  lemma DescsReplaced(g: Geometry, cat: Catalog, fds: seq<FileDesc>, i: nat, f: FileDesc)
    requires g.secPerClus > 0 && DescsOk(g, cat, fds) && i < |fds| && DescOk(g, cat, f)
    requires IsWriter(f) ==> IsWriter(fds[i]) && f.cluster == fds[i].cluster
    ensures DescsOk(g, cat, fds[i := f])
  {
    hide DescOk;
  }

  /** A file of `n0` bytes now has the first `k` bytes of `buf` behind them. */
  ghost predicate Accepted(b0: seq<Byte>, n0: nat, b: seq<Byte>, buf: seq<Byte>, k: nat) {
    n0 <= |b0| && n0 + k <= |b| && k <= |buf| && b[..n0 + k] == b0[..n0] + buf[..k]
  }

  lemma NothingAccepted(b: seq<Byte>, n: nat, buf: seq<Byte>)
    requires n <= |b|
    ensures Accepted(b, n, b, buf, 0)
  {
  }

  lemma AcceptedMore(b0: seq<Byte>, n0: nat, b: seq<Byte>, b1: seq<Byte>, b2: seq<Byte>, buf: seq<Byte>, k: nat, m: nat)
    requires Accepted(b0, n0, b, buf, k) && b <= b1 && m <= |buf| - k
    requires Accepted(b1, n0 + k, b2, buf[k..], m)
    ensures Accepted(b0, n0, b2, buf, k + m)
  {
    assert b1[..n0 + k] == b[..n0 + k];
    assert buf[..k + m] == buf[..k] + buf[k..][..m];
  }

  lemma SoundTree(g: Geometry, v: View, cat: Catalog)
    requires Sound(g, v, cat, {}, {})
    ensures TreeOk(g, cat, {}, {}) && TableOk(g, v.fat, cat) && Fits(g, v)
  {
  }

  lemma SoleWriterMoves(fds: seq<FileDesc>, i: nat, c: nat)
    requires i < |fds| && SoleWriter(fds, i)
    ensures SoleWriter(fds[i := fds[i].(cur := c)], i)
  {
  }

  lemma WriterContent(g: Geometry, v: View, cat: Catalog, f: FileDesc)
    requires g.Valid() && Sound(g, v, cat, {}, {}) && WriterOk(g, cat, f)
    ensures f.cluster in cat.chains && |Content(v, cat, f.cluster)| == Capacity(g, |cat.chains[f.cluster]|) >= f.size
  {
    ContentLength(g, v, cat, f.cluster);
  }

  lemma WriterLast(g: Geometry, v: View, cat: Catalog, f: FileDesc)
    requires g.Valid() && Sound(g, v, cat, {}, {}) && WriterOk(g, cat, f)
    ensures g.IsCluster(f.cur) && f.cur < |v.fat| && v.fat[f.cur] >= EOC
  {
    NextInChain(g, v, cat, f.cluster, |cat.chains[f.cluster]| - 1);
    ChainOf(g, v.fat, cat, f.cluster);
  }

  lemma GrewStart(v: View, cat: Catalog, h: nat)
    ensures OnlyFileGrew(v, cat, v, cat, h)
  {
  }

  lemma PatchKeepsFat(v: View, c: nat, s: nat, off: nat, bytes: seq<Byte>)
    ensures v.Patch(c, s, off, bytes).fat == v.fat
  {
  }

  lemma WriterGrew(g: Geometry, v0: View, cat0: Catalog, v: View, cat: Catalog, f: FileDesc, c: nat, w: View)
    requires g.Valid() && Sound(g, v, cat, {}, {}) && WriterOk(g, cat, f)
    requires f.pos == Capacity(g, |cat.chains[f.cluster]|)
    requires g.IsCluster(c) && v.fat[c] == FREE && f.cur < |v.fat|
    requires Fits(g, w) && w.fat == LinkedFat(v.fat, f.cur, c)
    requires forall x | 0 <= x < |v.data| && x != c :: w.data[x] == v.data[x]
    requires Keeps(v0, cat0, v, cat) && OnlyFileGrew(v0, cat0, v, cat, f.cluster)
    ensures Keeps(v0, cat0, w, Extended(cat, f.cluster, c))
    ensures OnlyFileGrew(v0, cat0, w, Extended(cat, f.cluster, c), f.cluster)
  {
    hide Mul, Quot, Rem, Homed, Linked, InUse, OwnersAreEntries, EntriesOwn, DirsOk, Keeps, Content, LinkedFat, StillUsed;
    WriterExtended(g, v, cat, f, c, w);
    OwnersKnown(g, cat);
    KeepsAppend(g, v0, cat0, v, cat, f.cluster, f.size, w, Extended(cat, f.cluster, c));
    LinkedStillUsed(v0.fat, v.fat, f.cur, c);
  }

  lemma WriterPutGrew(g: Geometry, v0: View, cat0: Catalog, v: View, cat: Catalog, f: FileDesc, bytes: seq<Byte>, w: View)
    requires g.Valid() && Sound(g, v, cat, {}, {}) && WriterReady(g, cat, f)
    requires 0 < |bytes| && f.pos % SECTOR_SIZE + |bytes| <= SECTOR_SIZE
    requires w == v.Patch(f.cur, Rem(f.pos / SECTOR_SIZE, g.secPerClus), f.pos % SECTOR_SIZE, bytes)
    requires Keeps(v0, cat0, v, cat) && OnlyFileGrew(v0, cat0, v, cat, f.cluster)
    ensures Keeps(v0, cat0, w, cat) && OnlyFileGrew(v0, cat0, w, cat, f.cluster)
    ensures CrashSafe(g, v0, cat0, w)
    ensures var b, b' := Content(v, cat, f.cluster), Content(w, cat, f.cluster);
      && f.size + |bytes| <= |b'| && f.size <= |b|
      && b'[..f.size + |bytes|] == b[..f.size] + bytes
    ensures Sound(g, w, cat, {}, {})
  {
    hide Mul, Quot, Rem, Homed, Linked, InUse, OwnersAreEntries, EntriesOwn, DirsOk, Keeps, Content, View.Patch, StillUsed;
    PatchKeepsFat(v, f.cur, Rem(f.pos / SECTOR_SIZE, g.secPerClus), f.pos % SECTOR_SIZE, bytes);
    WriterPut(g, v, cat, f, bytes, w);
    OwnersKnown(g, cat);
    var b, b' := Content(v, cat, f.cluster), Content(w, cat, f.cluster);
    assert b'[..f.size] == b[..f.size];
    KeepsAppend(g, v0, cat0, v, cat, f.cluster, f.size, w, cat);
  }

  lemma WriterReadyKnown(g: Geometry, cat: Catalog, f: FileDesc)
    requires g.secPerClus > 0 && WriterReady(g, cat, f)
    ensures f.cluster in cat.chains && f.pos == f.size < U32
  {
  }

  lemma WriterMoved(g: Geometry, cat: Catalog, f: FileDesc, n: nat)
    requires g.secPerClus > 0 && WriterReady(g, cat, f) && 0 < n && f.size + n < U32
    requires f.pos % SECTOR_SIZE + n <= SECTOR_SIZE
    ensures WriterOk(g, cat, f.(pos := f.pos + n, size := f.size + n))
  {
    hide Mul;
  }

  /** No other open descriptor writes the same file. */
  ghost predicate SoleWriter(fds: seq<FileDesc>, i: nat)
    requires i < |fds|
  {
    forall j {:trigger fds[j]} :: 0 <= j < |fds| && j != i && IsWriter(fds[j]) ==> fds[j].cluster != fds[i].cluster
  }

  lemma DescsClosed(g: Geometry, cat: Catalog, fds: seq<FileDesc>, i: nat)
    requires g.secPerClus > 0 && DescsOk(g, cat, fds) && i < |fds|
    ensures DescsOk(g, cat, fds[i := CLOSED])
    ensures IsWriter(fds[i]) ==> SoleWriter(fds, i)
  {
    hide DescOk;
    assert DescOk(g, cat, CLOSED) by {
      ClosedOk(g, cat);
    }
  }

  lemma ClosedOk(g: Geometry, cat: Catalog)
    requires g.secPerClus > 0
    ensures DescOk(g, cat, CLOSED)
  {
  }

  lemma DescsOpened(g: Geometry, cat: Catalog, fds: seq<FileDesc>, i: nat, f: FileDesc)
    requires g.secPerClus > 0 && DescsOk(g, cat, fds) && i < |fds| && DescOk(g, cat, f)
    requires IsWriter(f) ==> SoleWriter(fds[i := f], i)
    ensures DescsOk(g, cat, fds[i := f])
  {
    hide DescOk;
  }

  /** Descriptors other than number `i` stay in order when only files without other writers grow. */
  lemma DescsEvolve(g: Geometry, cat: Catalog, cat': Catalog, grown: set<nat>, fds: seq<FileDesc>, i: nat)
    requires g.secPerClus > 0 && DescsOk(g, cat, fds) && i < |fds| && Evolves(cat, cat', {}, grown)
    requires IsWriter(fds[i]) && grown <= {fds[i].cluster}
    requires TreeOk(g, cat, {}, {})
    ensures DescsOk(g, cat', fds[i := CLOSED])
  {
    hide DescOk, Evolves;
    ClosedOk(g, cat');
    forall j | 0 <= j < |fds| && j != i
      ensures DescOk(g, cat', fds[j])
    {
      DescStays(g, cat, cat', {}, grown, fds[j]);
    }
  }

  lemma RootEntry(g: Geometry, e: Entry)
    requires g.Valid() && e[20..22] == Le16(g.rootCluster / 0x1_0000 % 0x1_0000)
    requires e[26..28] == Le16(g.rootCluster % 0x1_0000) && e[28..] == [0, 0, 0, 0]
    ensures EntryCluster(e) == g.rootCluster && EntrySize(e) == 0
  {
    Le16RoundTrip(g.rootCluster / 0x1_0000 % 0x1_0000);
    Le16RoundTrip(g.rootCluster % 0x1_0000);
    assert e[28..] == e[28..32];
  }

  /** What `Goal` means, step by step. */
  lemma GoalLeads(g: Geometry, v: View, cat: Catalog, path: Path)
    requires Consistent(g, v, cat)
    ensures forall d: nat, n: Name {:trigger LeadsTo(g.rootCluster, cat.dirs, path, d, n)} ::
              LeadsTo(g.rootCluster, cat.dirs, path, d, n) <==> TargetOf(g.rootCluster, cat.dirs, path) == Target(d, n)
  {
    hide Sound, LeadsTo, TargetOf;
    forall d: nat, n: Name
      ensures LeadsTo(g.rootCluster, cat.dirs, path, d, n) <==> TargetOf(g.rootCluster, cat.dirs, path) == Target(d, n)
    {
      PathLeads(g.rootCluster, cat.dirs, path, d, n);
    }
  }

  lemma RootIsDir(g: Geometry, v: View, cat: Catalog)
    requires g.Valid() && Consistent(g, v, cat)
    ensures g.rootCluster in cat.dirs && g.rootCluster != 0
  {
  }

  /** The entry of a directory leads to a directory. */
  lemma SubdirIsDir(g: Geometry, v: View, cat: Catalog, d: nat, k: nat)
    requires Consistent(g, v, cat) && d in cat.dirs && k < |cat.dirs[d]|
    requires cat.dirs[d][k].Entry83? && cat.dirs[d][k].attr == ATTR_DIR
    ensures cat.dirs[d][k].clus in cat.dirs && cat.dirs[d][k].clus >= 2
  {
    hide Linked, InUse, DirsOk, OwnersAreEntries, Orderly;
    var c := cat.dirs[d][k].clus;
    assert RefOk(g, cat, d, k);
    PlaceOf(g, cat.chains, cat.place, c, 0);
  }

  /** The first closed slot was used, and no other. */
  predicate SlotTaken(fds0: seq<FileDesc>, fds1: seq<FileDesc>, fd: int) {
    && 0 <= fd < |fds0| == |fds1| && !fds0[fd].open && (forall j | 0 <= j < fd :: fds0[j].open)
    && fds1 == fds0[fd := fds1[fd]]
  }

  /** A descriptor at the start of the file that begins at cluster `c`. */
  predicate FreshDesc(f: FileDesc, write: bool, c: nat, dir: nat, size: nat) {
    f == FileDesc(true, write, c, dir, f.dirLba, f.dirOffset, size, 0, c)
  }

  /** The file at `t` was emptied: its entry has the new chain `c`. */
  ghost predicate FileRenewed(v0: View, cat0: Catalog, v: View, cat: Catalog, t: Target, c: nat) {
    && Present(cat0.dirs, t)
    && exists k: nat {:trigger EntryRenewed(v0, cat0, v, cat, t.dir, k, c)} ::
         EntryRenewed(v0, cat0, v, cat, t.dir, k, c) && cat0.dirs[t.dir][k] == Found(cat0.dirs, t)
  }

  /** The empty file `t` with the new chain `c` was added. */
  ghost predicate FileCreated(v0: View, cat0: Catalog, v: View, cat: Catalog, t: Target, c: nat) {
    && t.Target? && t.dir in cat0.dirs
    && exists k: nat, short: Short ::
         && ShortFor(t.name, Shorts(cat0.dirs[t.dir]), short)
         && EntryMade(v0, cat0, v, cat, t.dir, k, Entry83(t.name, short, ATTR_ARCHIVE, c, 0), map[])
  }

  /** Entry `k` of the target's directory is the one the path names. */
  ghost predicate EntryIs(cat: Catalog, t: Target, k: nat) {
    Present(cat.dirs, t) && k < |cat.dirs[t.dir]| && cat.dirs[t.dir][k] == Found(cat.dirs, t)
  }

  /** A volume whose root holds an entry without a name is not a consistent one, however it is described. */
  lemma NobodyReads(g: Geometry, w: View, p: Placement, attr: Byte, clus: nat)
    requires g.Valid() && IsChain(g, w.fat, p.ch) && NamelessAt(Dir(w.data, p.ch), p, attr, clus, 0)
    ensures p.ch[0] == g.rootCluster ==> forall cat :: !Consistent(g, w, cat)
  {
    hide NamelessAt, Distinct, Consistent;
    if p.ch[0] == g.rootCluster {
      forall cat
        ensures !Consistent(g, w, cat)
      {
        if Consistent(g, w, cat) {
          RootReads(g, w, p.ch, cat);
          NobodyListsNameless(Dir(w.data, p.ch), p, attr, clus, 0, cat.dirs[g.rootCluster]);
        }
      }
    }
  }

  lemma RootReads(g: Geometry, w: View, ch: seq<nat>, cat: Catalog)
    requires g.Valid() && IsChain(g, w.fat, ch) && ch[0] == g.rootCluster && Consistent(g, w, cat)
    ensures g.rootCluster in cat.dirs && AllMatch(Dir(w.data, ch), cat.dirs[g.rootCluster]) && WellRun(cat.dirs[g.rootCluster])
  {
    hide TableOk, EntriesOwn, OwnersAreEntries, AllMatch, Dir, WellRun, NamesDistinct, IsChain;
    DirReady(g, w, cat, {}, {}, g.rootCluster);
    ChainUnique(g, w.fat, cat.chains[g.rootCluster], ch);
  }

  /** The file at `t` was emptied, and the first write on the way was not safe even for that. */
  ghost predicate EmptiedUnsafely(g: Geometry, v0: View, cat0: Catalog, t: Target, h0: seq<View>, h1: seq<View>) {
    exists k: nat {:trigger EntryIs(cat0, t, k)} :: EntryIs(cat0, t, k) && UnsafeAtFirst(g, v0, cat0, Ref(t.dir, k), h0, h1)
  }

  /** The file at `t` was removed, and only the last write left a state that is safe even for that. */
  ghost predicate RemovedUnsafely(g: Geometry, v0: View, cat0: Catalog, t: Target, h0: seq<View>, h1: seq<View>) {
    exists k: nat {:trigger EntryIs(cat0, t, k)} :: EntryIs(cat0, t, k) && UnsafeUntilDone(g, v0, cat0, Ref(t.dir, k), h0, h1)
  }

  /** The directory of the path has room for the records of the name and the short entry. */
  ghost predicate RoomFor(cat: Catalog, t: Target) {
    t.Target? ==> t.dir in cat.dirs && HasRoom(cat.dirs[t.dir], Parts(t.name) + 1)
  }

  /** A new entry is made safely, at every write, exactly if its directory has room for it; otherwise the directory reads on
      into a cluster that is not zeroed yet on the way.  When no entry is made, everything is safe. */
  ghost predicate SafeIfRoom(g: Geometry, v0: View, cat0: Catalog, t: Target, made: bool, h0: seq<View>, h1: seq<View>) {
    && (AllSafe(g, v0, cat0, h0, h1) <==> (made ==> RoomFor(cat0, t)))
    && (made && !RoomFor(cat0, t) ==> t.Target? && ShowedStale(g, v0, cat0, t.dir, h0, h1))
  }

  lemma RoomMatters(g: Geometry, v0: View, cat0: Catalog, dir: nat, name: Name, made: bool, h0: seq<View>, h1: seq<View>)
    requires dir in cat0.dirs
    requires !made || HasRoom(cat0.dirs[dir], Parts(name) + 1) ==> AllSafe(g, v0, cat0, h0, h1)
    requires made && !HasRoom(cat0.dirs[dir], Parts(name) + 1) ==>
               !AllSafe(g, v0, cat0, h0, h1) && ShowedStale(g, v0, cat0, dir, h0, h1)
    ensures SafeIfRoom(g, v0, cat0, Target(dir, name), made, h0, h1)
  {
    hide HasRoom, AllSafe, ShowedStale;
  }

  lemma PlacedGrown(g: Geometry, v: View, ch: seq<nat>, cells: seq<Cell>, p: Placement)
    requires Placed(g, v, ch, cells, p) && p.grown != 0
    ensures g.IsCluster(p.grown) && p.grown < |v.fat| && v.fat[p.grown] == FREE
  {
  }

  lemma EachSafe(g: Geometry, v0: View, cat0: Catalog, h0: seq<View>, h1: seq<View>)
    requires forall i {:trigger h1[i]} :: |h0| <= i < |h1| ==> CrashSafe(g, v0, cat0, h1[i])
    ensures AllSafe(g, v0, cat0, h0, h1)
  {
    hide CrashSafe;
  }

  lemma NothingUnsafe(g: Geometry, v0: View, cat0: Catalog, t: Target, h: seq<View>)
    ensures SafeIfRoom(g, v0, cat0, t, false, h, h)
  {
  }

  /** Two stretches of writes, the first of them safe. */
  lemma SafeTogether(g: Geometry, v0: View, cat0: Catalog, t: Target, made: bool, h0: seq<View>, h1: seq<View>, h2: seq<View>)
    requires h0 <= h1 <= h2 && AllSafe(g, v0, cat0, h0, h1) && SafeIfRoom(g, v0, cat0, t, made, h1, h2)
    ensures SafeIfRoom(g, v0, cat0, t, made, h0, h2)
  {
    hide AllSafe, LinkedUnzeroed, Passed, RoomFor;
    AllSafeParts(g, v0, cat0, h0, h1, h2);
    if made && !RoomFor(cat0, t) {
      var newClus: nat, c: nat, w :| LinkedUnzeroed(g, v0, cat0, t.dir, newClus, c, w) && Passed(h1, h2, w);
      PassedSince(h0, h1, h2, w);
    }
  }

  lemma ConsistentFits(g: Geometry, v: View, cat: Catalog)
    requires Consistent(g, v, cat)
    ensures Fits(g, v)
  {
  }

  lemma DirReadyNow(g: Geometry, v: View, cat: Catalog, d: nat)
    requires Consistent(g, v, cat) && d in cat.dirs
    ensures d in cat.chains && g.IsCluster(d) && Orderly(map[])
  {
    HeadIsCluster(g, v, cat, d);
  }

  lemma AllocatingIsStray(g: Geometry, v0: View, c: nat, w: View)
    requires g.Valid() && Fits(g, v0) && g.IsCluster(c) && v0.fat[c] == FREE && Allocating(g, v0, 0, c, w)
    ensures Stray(g, v0, c, w)
  {
  }

  /** The descriptors in use stay in order while their files do. */
  lemma DescsStay(g: Geometry, cat: Catalog, cat': Catalog, gone: set<nat>, fds: seq<FileDesc>)
    requires g.secPerClus > 0 && DescsOk(g, cat, fds) && Evolves(cat, cat', gone, {}) && TreeOk(g, cat, {}, {})
    requires forall h | h in gone :: NotOpen(fds, h)
    ensures DescsOk(g, cat', fds)
  {
    hide DescOk, Evolves, EntriesOwn;
    forall j | 0 <= j < |fds|
      ensures DescOk(g, cat', fds[j])
    {
      DescStays(g, cat, cat', gone, {}, fds[j]);
    }
  }

  lemma DescsOwned(g: Geometry, cat: Catalog, fds: seq<FileDesc>, c: nat)
    requires g.secPerClus > 0 && DescsOk(g, cat, fds) && c !in cat.owner
    ensures NotOpen(fds, c)
  {
    hide Mul, Quot, Rem;
    forall i {:trigger fds[i]} | 0 <= i < |fds| && fds[i].open
      ensures fds[i].cluster != c
    {
      assert DescOk(g, cat, fds[i]);
    }
  }

  lemma NewIsSole(fds: seq<FileDesc>, i: nat, f: FileDesc)
    requires i < |fds| && NotOpen(fds, f.cluster)
    ensures SoleWriter(fds[i := f], i)
  {
  }

  lemma RenewedDescs(g: Geometry, v: View, cat: Catalog, w: View, cat': Catalog, d: nat, k: nat, c: nat,
                     fds: seq<FileDesc>, pos: DirPos)
    requires g.Valid() && Consistent(g, v, cat) && EntryRenewed(v, cat, w, cat', d, k, c) && DescsOk(g, cat, fds)
    requires NotOpen(fds, cat.dirs[d][k].clus) && At(g, cat.chains[d], k, pos)
    ensures DescsOk(g, cat', fds) && NotOpen(fds, c)
    ensures DescOk(g, cat', FileDesc(true, true, c, d, pos.lba, pos.off, 0, 0, c))
  {
    hide Evolves, TreeOk, TableOk, DirsOk, Orderly, DescsOk, Listing, Fold, DescOk, At, AtSector;
    DescsStay(g, cat, cat', {cat.dirs[d][k].clus}, fds);
    if c != cat.dirs[d][k].clus {
      DescsOwned(g, cat, fds, c);
    }
    NewWriter(g, cat', d, k, c, pos);
  }

  lemma MadeDescs(g: Geometry, v: View, cat: Catalog, w: View, cat': Catalog, d: nat, k: nat, e: Cell,
                  fds: seq<FileDesc>, pos: DirPos)
    requires g.Valid() && Consistent(g, v, cat) && EntryMade(v, cat, w, cat', d, k, e, map[]) && DescsOk(g, cat, fds)
    requires At(g, cat'.chains[d], k, pos) && e.size == 0
    ensures DescsOk(g, cat', fds) && NotOpen(fds, e.clus)
    ensures DescOk(g, cat', FileDesc(true, true, e.clus, d, pos.lba, pos.off, 0, 0, e.clus))
  {
    hide Evolves, TreeOk, TableOk, DirsOk, Orderly, DescsOk, Listing, Fold, DescOk, Keeps, ShortsDistinct, Shorts, At, AtSector;
    DescsStay(g, cat, cat', {}, fds);
    DescsOwned(g, cat, fds, e.clus);
    NewWriter(g, cat', d, k, e.clus, pos);
  }

  /** A writer of a file that was just made or emptied. */
  lemma NewWriter(g: Geometry, cat: Catalog, d: nat, k: nat, c: nat, pos: DirPos)
    requires g.Valid() && d in cat.dirs && k < |cat.dirs[d]| && cat.dirs[d][k].Entry83? && cat.dirs[d][k].size == 0
    requires c in cat.owner && cat.owner[c] == Ref(d, k) && c !in cat.dirs && c in cat.chains && cat.chains[c] == [c]
    requires d in cat.chains && At(g, cat.chains[d], k, pos)
    ensures DescOk(g, cat, FileDesc(true, true, c, d, pos.lba, pos.off, 0, 0, c))
  {
    hide Quot, Rem;
  }

  lemma NewReader(g: Geometry, v: View, cat: Catalog, d: nat, k: nat, pos: DirPos)
    requires g.Valid() && Consistent(g, v, cat) && d in cat.dirs && k < |cat.dirs[d]| && cat.dirs[d][k].Entry83?
    requires cat.dirs[d][k].attr == ATTR_ARCHIVE && cat.dirs[d][k].size < U32
    ensures DescOk(g, cat, FileDesc(true, false, cat.dirs[d][k].clus, d, pos.lba, pos.off, cat.dirs[d][k].size, 0,
                                    cat.dirs[d][k].clus))
  {
    hide Linked, InUse, DirsOk, Orderly, OwnersAreEntries, Mul;
    assert RefOk(g, cat, d, k);
    QuotRemUnique(g.secPerClus, 0, 0);
    MulUp(0, g.secPerClus);
  }

  /** The directory `t` with the new chain `c` was added: empty, with entries for itself and its parent. */
  ghost predicate DirMade(g: Geometry, v0: View, cat0: Catalog, v: View, cat: Catalog, t: Target, c: nat) {
    && t.Target? && t.dir in cat0.dirs && g.secPerClus > 0
    && BeginsWithDots(Dir(v.data, [c]), c, if t.dir == g.rootCluster then 0 else t.dir)
    && exists k: nat, short: Short ::
         && ShortFor(t.name, Shorts(cat0.dirs[t.dir]), short)
         && EntryMade(v0, cat0, v, cat, t.dir, k, Entry83(t.name, short, ATTR_DIR, c, 0), map[c := DotCells(g, c, t.dir)])
  }

  /** The first two entries on the disk: a dot and blanks, leading to the directory itself, and two dots and blanks, leading
      to the one above. */
  predicate BeginsWithDots(es: seq<Entry>, self: nat, above: nat) {
    && |es| >= 2
    && es[0][..12] == [46, 32, 32, 32, 32, 32, 32, 32, 32, 32, 32, 0x10] && EntryCluster(es[0]) == self
    && es[1][..12] == [46, 46, 32, 32, 32, 32, 32, 32, 32, 32, 32, 0x10] && EntryCluster(es[1]) == above
  }

  lemma DotsOnDisk(g: Geometry, v0: View, cat0: Catalog, v: View, cat: Catalog, parent: nat, k: nat, e: Cell)
    requires g.Valid() && Consistent(g, v, cat) && e.Entry83?
    requires EntryMade(v0, cat0, v, cat, parent, k, e, map[e.clus := DotCells(g, e.clus, parent)])
    ensures BeginsWithDots(Dir(v.data, [e.clus]), e.clus, if parent == g.rootCluster then 0 else parent)
  {
    hide Sound, Dir, WellRun, NamesDistinct, IsChain, Evolves, Keeps, Content, ShortsDistinct, Shorts, Listing, Fold;
    var c := e.clus;
    assert c in cat.dirs && cat.dirs[c] == DotCells(g, c, parent);
    DirReady(g, v, cat, {}, {}, c);
    SecondMatters(cat.dirs[c], Dir(v.data, [c]));
  }

  lemma SecondMatters(cells: seq<Cell>, es: seq<Entry>)
    requires AllMatch(es, cells) && |cells| >= 2 && cells[0].Dot? && cells[1].Dot?
    ensures Matches(es[0], cells[0]) && Matches(es[1], cells[1])
    ensures es[0][..12] == DotName(cells[0].up) + [0x10] && es[1][..12] == DotName(cells[1].up) + [0x10]
  {
    assert es[0][..12] == es[0][..11] + [es[0][11]] && es[1][..12] == es[1][..11] + [es[1][11]];
  }

  /** The new directory is where its path leads, so that paths below it lead into it. */
  lemma MadeBelow(g: Geometry, v0: View, cat0: Catalog, v: View, cat: Catalog, path: Path, c: nat)
    requires Consistent(g, v0, cat0) && Consistent(g, v, cat)
    requires DirMade(g, v0, cat0, v, cat, TargetOf(g.rootCluster, cat0.dirs, path), c)
    requires TargetOf(g.rootCluster, cat0.dirs, path).name != []
    requires !Present(cat0.dirs, TargetOf(g.rootCluster, cat0.dirs, path))
    ensures forall n: Name {:trigger Below(path, n)} :: n != [] && |n| < 256 && SLASH !in n ==>
              TargetOf(g.rootCluster, cat.dirs, Below(path, n)) == Target(c, n)
  {
    hide Listing, Fold, Evolves, Keeps, Content, ShortsDistinct, Shorts, ShortFor, Below, TargetOf, BeginsWithDots, DotCells, Dir;
    hide Consistent;
    var t := TargetOf(g.rootCluster, cat0.dirs, path);
    MadeSubdirs(g, v0, cat0, v, cat, t, c);
    forall n: Name | n != [] && |n| < 256 && SLASH !in n
      ensures TargetOf(g.rootCluster, cat.dirs, Below(path, n)) == Target(c, n)
    {
      TargetBelow(g.rootCluster, cat0.dirs, cat.dirs, path, n, c);
    }
  }

  lemma MadeSubdirs(g: Geometry, v0: View, cat0: Catalog, v: View, cat: Catalog, t: Target, c: nat)
    requires Consistent(g, v, cat) && DirMade(g, v0, cat0, v, cat, t, c) && t.name != [] && !Present(cat0.dirs, t)
    ensures SameSubdirs(cat0.dirs, cat.dirs) && Subdir(cat.dirs, t, c)
  {
    hide EntryMade, ShortFor, BeginsWithDots, DotCells, Dir, Consistent, SameSubdirs, Subdir, Shorts;
    var k: nat, short: Short :| ShortFor(t.name, Shorts(cat0.dirs[t.dir]), short) &&
      EntryMade(v0, cat0, v, cat, t.dir, k, Entry83(t.name, short, ATTR_DIR, c, 0), map[c := DotCells(g, c, t.dir)]);
    EntryIsSubdir(g, v0, cat0, v, cat, t, k, Entry83(t.name, short, ATTR_DIR, c, 0), map[c := DotCells(g, c, t.dir)]);
  }

  lemma EntryIsSubdir(g: Geometry, v0: View, cat0: Catalog, v: View, cat: Catalog, t: Target, k: nat, e: Cell,
                      sub: map<nat, seq<Cell>>)
    requires Consistent(g, v, cat) && t.Target? && t.name != [] && !Present(cat0.dirs, t)
    requires EntryMade(v0, cat0, v, cat, t.dir, k, e, sub) && e.name == t.name && e.attr == ATTR_DIR
    ensures SameSubdirs(cat0.dirs, cat.dirs) && Subdir(cat.dirs, t, e.clus)
  {
    hide Listing, Fold, Evolves, Keeps, Content, ShortsDistinct, Shorts, Consistent;
    SubdirIsDir(g, v, cat, t.dir, k);
  }

  lemma DescsStayMade(g: Geometry, v: View, cat: Catalog, w: View, cat': Catalog, d: nat, k: nat, e: Cell,
                      sub: map<nat, seq<Cell>>, fds: seq<FileDesc>)
    requires g.Valid() && Consistent(g, v, cat) && EntryMade(v, cat, w, cat', d, k, e, sub) && DescsOk(g, cat, fds)
    ensures DescsOk(g, cat', fds)
  {
    hide Evolves, TreeOk, TableOk, DirsOk, Orderly, DescsOk, Listing, Fold, Keeps, ShortsDistinct, Shorts;
    DescsStay(g, cat, cat', {}, fds);
  }

  /** The file at `t` is gone. */
  ghost predicate FileRemoved(v0: View, cat0: Catalog, v: View, cat: Catalog, t: Target) {
    && Present(cat0.dirs, t)
    && exists k: nat {:trigger EntryRemoved(v0, cat0, v, cat, t.dir, k)} ::
         EntryRemoved(v0, cat0, v, cat, t.dir, k) && cat0.dirs[t.dir][k] == Found(cat0.dirs, t)
  }

  lemma RemovedDescs(g: Geometry, v: View, cat: Catalog, w: View, cat': Catalog, d: nat, k: nat, fds: seq<FileDesc>)
    requires g.Valid() && Consistent(g, v, cat) && EntryRemoved(v, cat, w, cat', d, k) && DescsOk(g, cat, fds)
    requires NotOpen(fds, cat.dirs[d][k].clus)
    ensures DescsOk(g, cat', fds)
  {
    hide Evolves, TreeOk, TableOk, DirsOk, Orderly, DescsOk, Listing, Fold;
    DescsStay(g, cat, cat', {cat.dirs[d][k].clus}, fds);
  }

  /** The directory is still there to be edited after a file's chain was freed. */
  lemma FreedDir(g: Geometry, v: View, cat: Catalog, d: nat, k: nat, v1: View)
    requires g.Valid() && Consistent(g, v, cat) && d in cat.dirs && k < |cat.dirs[d]| && d in cat.chains
    requires cat.dirs[d][k].Entry83? && cat.dirs[d][k].attr == ATTR_ARCHIVE && cat.dirs[d][k].clus in cat.chains
    requires v1.fat == Cleared(v.fat, cat.chains[cat.dirs[d][k].clus]) && v1.data == v.data
    requires Parts(cat.dirs[d][k].name) <= k
    ensures IsChain(g, v1.fat, cat.chains[d]) && AllMatch(Dir(v1.data, cat.chains[d]), cat.dirs[d])
    ensures 1 <= Parts(cat.dirs[d][k].name)
  {
    hide Homed, Linked, InUse, TreeOk, AllMatch, Dir, Cleared, IsChain, NamesDistinct, ChainFrom, DirsOk;
    FreedSound(g, v, cat, d, k, v1);
    DirReady(g, v1, Unlinked(cat, cat.dirs[d][k].clus), {}, {Ref(d, k)}, d);
    assert WellPlaced(cat.dirs[d], k) && WellPlaced(cat.dirs[d], k - 1);
  }
}

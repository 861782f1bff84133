/** What a power cut must not leave, and when it does: what the bytes of an image force on every description of it. */
module PowerCuts {
  import opened Bytes
  import opened Layout
  import opened Chains
  import opened Volumes
  import opened Names
  import opened LongNames
  import opened ChainData
  import opened Cells
  import opened Directories
  import opened DirAdd
  import opened Catalogs
  import opened Files
  import opened EntryChanges
  import opened TreeChanges

  /** A table and a first cluster leave no choice of the chain. */
  lemma {:induction false} ChainAgrees(g: Geometry, fat: seq<nat>, a: seq<nat>, b: seq<nat>, i: nat)
    requires IsChain(g, fat, a) && IsChain(g, fat, b) && a[0] == b[0] && i < |a| && g.Valid()
    ensures i < |b| && a[i] == b[i]
  {
    if i > 0 {
      ChainAgrees(g, fat, a, b, i - 1);
      assert fat[a[i - 1]] == a[i] < EOC;
      assert fat[b[i - 1]] == fat[a[i - 1]];
    }
  }

  lemma ChainUnique(g: Geometry, fat: seq<nat>, a: seq<nat>, b: seq<nat>)
    requires IsChain(g, fat, a) && IsChain(g, fat, b) && a[0] == b[0] && g.Valid()
    ensures a == b
  {
    ChainAgrees(g, fat, a, b, |a| - 1);
    ChainAgrees(g, fat, b, a, |b| - 1);
    forall i | 0 <= i < |a|
      ensures a[i] == b[i]
    {
      ChainAgrees(g, fat, a, b, i);
    }
  }

  /** The directory `d` is there however the image is described, unless the file to go is a directory. */
  lemma DirStays(g: Geometry, v0: View, cat0: Catalog, w: View, cat: Catalog, pend: set<nat>, r: Ref, d: nat)
    requires Consistent(g, v0, cat0) && Sound(g, w, cat, pend, {}) && KeepsBut(v0, cat0, w, cat, r) && d in cat0.dirs
    requires r.dir in cat0.dirs && r.idx < |cat0.dirs[r.dir]| && cat0.dirs[r.dir][r.idx].Entry83? ==>
               cat0.dirs[r.dir][r.idx].attr != ATTR_DIR
    ensures d in cat.dirs
  {
    hide TableOk, DirsOk, Orderly, Content, OwnersAreEntries;
    if d != g.rootCluster {
      OwnerDir(g, cat0, {}, {}, d);
      var o := cat0.owner[d];
      assert RefOk(g, cat0, o.dir, o.idx);
      assert KeptAt(v0, cat0, w, cat, o.dir, o.idx);
      assert RefOk(g, cat, o.dir, o.idx);
    }
  }

  /** The chain `h` is there however the image is described, and is what the table says. */
  lemma ChainStays(g: Geometry, v0: View, cat0: Catalog, w: View, cat: Catalog, pend: set<nat>, h: nat, ch: seq<nat>)
    requires g.Valid() && Consistent(g, v0, cat0) && Sound(g, w, cat, pend, {}) && Keeps(v0, cat0, w, cat)
    requires h in cat0.chains && IsChain(g, w.fat, ch) && ch[0] == h
    ensures h in cat.chains && cat.chains[h] == ch
  {
    hide Homed, Linked, InUse, DirsOk, Orderly, Content, IsChain;
    if h != g.rootCluster {
      var o := cat0.owner[h];
      OwnerDir(g, cat0, {}, {}, h);
      assert KeptAt(v0, cat0, w, cat, o.dir, o.idx);
      assert RefOk(g, cat, o.dir, o.idx);
    }
    ChainOf(g, w.fat, cat, h);
    ChainUnique(g, w.fat, cat.chains[h], ch);
  }

  /** A live short entry on the disk is described as one, with the cluster it names. */
  lemma LiveEntry(e: Entry, a: Cell, b: Cell)
    requires Matches(e, a) && Matches(e, b) && a.Entry83?
    ensures b.Entry83? && b.clus == a.clus && b.attr == a.attr && b.size == a.size && b.short == a.short
  {
  }

  // ---- Removing and emptying ----

  /** The short entry of a file that is on the disk needs the file's chain, however the image is described. */
  lemma EntryNeedsChain(g: Geometry, v0: View, cat0: Catalog, d: nat, k: nat, w: View, cat: Catalog, pend: set<nat>)
    requires g.Valid() && Consistent(g, v0, cat0) && d in cat0.dirs && d in cat0.chains && k < |cat0.dirs[d]|
    requires cat0.dirs[d][k].Entry83? && cat0.dirs[d][k].attr == ATTR_ARCHIVE && cat0.dirs[d][k].clus < |w.fat|
    requires IsChain(g, w.fat, cat0.chains[d]) && k < |Dir(w.data, cat0.chains[d])|
    requires Matches(Dir(w.data, cat0.chains[d])[k], cat0.dirs[d][k])
    requires Sound(g, w, cat, pend, {}) && KeepsBut(v0, cat0, w, cat, Ref(d, k))
    ensures w.fat[cat0.dirs[d][k].clus] != FREE
  {
    hide Linked, Orderly, Content, IsChain, Matches, Dir, KeptAt, OwnersAreEntries, GoneAt, KeepsBut;
    var ch, h := cat0.chains[d], cat0.dirs[d][k].clus;
    DirStays(g, v0, cat0, w, cat, pend, Ref(d, k), d);
    HeadOf(g, v0, cat0, d);
    ChainOf(g, w.fat, cat, d);
    ChainUnique(g, w.fat, cat.chains[d], ch);
    assert AllMatch(Dir(w.data, ch), cat.dirs[d]);
    LiveEntry(Dir(w.data, ch)[k], cat0.dirs[d][k], cat.dirs[d][k]);
    assert RefOk(g, cat, d, k);
    PlaceOf(g, cat.chains, cat.place, h, 0);
  }

  lemma HeadOf(g: Geometry, v: View, cat: Catalog, d: nat)
    requires Consistent(g, v, cat) && d in cat.chains
    ensures cat.chains[d] != [] && cat.chains[d][0] == d
  {
  }

  /** A state in which the first cluster of a file is free while its short entry is still on the disk is not safe, not even
      if the file is to go. */
  lemma FreedUnderEntry(g: Geometry, v0: View, cat0: Catalog, d: nat, k: nat, w: View)
    requires g.Valid() && Consistent(g, v0, cat0) && d in cat0.dirs && d in cat0.chains && k < |cat0.dirs[d]|
    requires cat0.dirs[d][k].Entry83? && cat0.dirs[d][k].attr == ATTR_ARCHIVE
    requires cat0.dirs[d][k].clus < |w.fat| && w.fat[cat0.dirs[d][k].clus] == FREE
    requires IsChain(g, w.fat, cat0.chains[d]) && k < |Dir(w.data, cat0.chains[d])|
    requires Matches(Dir(w.data, cat0.chains[d])[k], cat0.dirs[d][k])
    ensures !CrashSafeBut(g, v0, cat0, w, Ref(d, k))
  {
    hide Consistent, Sound, IsChain, Matches, Dir, KeepsBut;
    if CrashSafeBut(g, v0, cat0, w, Ref(d, k)) {
      var cat, pend :| Sound(g, w, cat, pend, {}) && KeepsBut(v0, cat0, w, cat, Ref(d, k));
      EntryNeedsChain(g, v0, cat0, d, k, w, cat, pend);
    }
  }

  /** A change to one entry: the volume is sound, and what the other entries say of files is as it was. */
  lemma ChangedIsSafe(g: Geometry, v: View, cat: Catalog, d: nat, k: nat, w: View, cat': Catalog, pend: set<nat>)
    requires Consistent(g, v, cat) && Sound(g, w, cat', pend, {}) && d in cat.dirs && k < |cat.dirs[d]|
    requires cat.dirs[d][k].Entry83? && cat.dirs[d][k].attr == ATTR_ARCHIVE
    requires forall e {:trigger cat.dirs[e]} :: e in cat.dirs ==> e in cat'.dirs && |cat'.dirs[e]| == |cat.dirs[e]|
    requires forall e, i {:trigger cat.dirs[e][i]} ::
               e in cat.dirs && 0 <= i < |cat.dirs[e]| && Ref(e, i) != Ref(d, k) && cat.dirs[e][i].Entry83? ==>
                 cat'.dirs[e][i] == cat.dirs[e][i]
    requires forall h {:trigger cat.owner[h]} :: h in cat.owner && h !in cat.dirs && h != cat.dirs[d][k].clus ==>
               Content(w, cat', h) == Content(v, cat, h)
    requires GoneAt(cat, cat', d, k)
    ensures CrashSafeBut(g, v, cat, w, Ref(d, k))
  {
    hide TableOk, DirsOk, Orderly, Content, GoneAt, OwnersAreEntries;
    forall e, i {:trigger cat.dirs[e][i]} | e in cat.dirs && 0 <= i < |cat.dirs[e]| && cat.dirs[e][i].Entry83? && Ref(e, i) != Ref(d, k)
      ensures KeptAt(v, cat, w, cat', e, i)
    {
      assert RefOk(g, cat, e, i) && RefOk(g, cat, d, k);
    }
    assert KeepsBut(v, cat, w, cat', Ref(d, k));
  }

  /** A finished change to one entry: the other files are as they were, and the volume is sound. */
  lemma FinishedIsSafe(g: Geometry, v: View, cat: Catalog, d: nat, k: nat, w: View, cat': Catalog)
    requires Consistent(g, v, cat) && Consistent(g, w, cat') && d in cat.dirs && k < |cat.dirs[d]|
    requires cat.dirs[d][k].Entry83? && cat.dirs[d][k].attr == ATTR_ARCHIVE && d in cat'.dirs
    requires Undisturbed(v, cat, w, cat', d, {cat.dirs[d][k].clus})
    requires |cat'.dirs[d]| == |cat.dirs[d]|
    requires forall i {:trigger cat.dirs[d][i]} :: 0 <= i < |cat.dirs[d]| && i != k && cat.dirs[d][i].Entry83? ==>
               cat'.dirs[d][i] == cat.dirs[d][i]
    requires GoneAt(cat, cat', d, k)
    ensures CrashSafeBut(g, v, cat, w, Ref(d, k))
  {
    hide Sound, Orderly, Content, GoneAt, Evolves, CrashSafeBut;
    ChangedIsSafe(g, v, cat, d, k, w, cat', {});
  }

  /** Entry `k` of the directory kept in `ch` is on the disk, over the table of `v`. */
  ghost predicate EntryThere(v: View, ch: seq<nat>, k: nat, cell: Cell, w: View) {
    w.fat == v.fat && k < |Dir(w.data, ch)| && Matches(Dir(w.data, ch)[k], cell)
  }

  /** The short entry is the last one of its run to be erased. */
  lemma ErasingLeavesEntry(g: Geometry, v: View, ch: seq<nat>, cells: seq<Cell>, k: nat, n: nat, w: View)
    requires k < |cells| && cells[k].Entry83? && Parts(cells[k].name) <= k && n <= Parts(cells[k].name)
    requires DirState(g, v, ch, Erased(cells, k, n), w)
    ensures EntryThere(v, ch, k, cells[k], w)
  {
    hide Matches, Dir;
    assert Erased(cells, k, n)[k] == cells[k];
  }

  /** The chain of a directory while another chain is being freed. */
  lemma DirWhileFreeing(g: Geometry, v: View, cat: Catalog, d: nat, h: nat, fat: seq<nat>)
    requires g.Valid() && Consistent(g, v, cat) && d in cat.dirs && d in cat.chains && h in cat.chains && h != d
    requires PartlyFreed(v.fat, cat.chains[h], fat)
    ensures IsChain(g, fat, cat.chains[d])
  {
    hide TreeOk, DirsOk, Orderly, InUse, Linked, Distinct, Homed;
    ChainOf(g, v.fat, cat, d);
    var n :| 0 <= n <= |cat.chains[h]| && fat == Cleared(v.fat, cat.chains[h][..n]);
    forall i {:trigger cat.chains[d][i]} | 0 <= i < |cat.chains[d]|
      ensures cat.chains[d][i] < |fat| && fat[cat.chains[d][i]] == v.fat[cat.chains[d][i]]
    {
      assert g.IsCluster(cat.chains[d][i]);
      NotShared(g, cat.chains, cat.place, h, d, i);
      assert cat.chains[d][i] !in cat.chains[h][..n];
    }
  }

  /** While the file of the entry `r` was removed or emptied, every write but the last left the disk in a state that is not
      safe even for that; the last one is safe. */
  ghost predicate UnsafeUntilDone(g: Geometry, v0: View, cat0: Catalog, r: Ref, h0: seq<View>, h1: seq<View>) {
    && |h0| + 1 < |h1|
    && (forall i {:trigger h1[i]} :: |h0| <= i < |h1| - 1 ==> !CrashSafeBut(g, v0, cat0, h1[i], r))
    && CrashSafeBut(g, v0, cat0, h1[|h1| - 1], r)
  }

  /** A file whose chain is freed before its run is erased. */
  lemma FreedThenErased(g: Geometry, v: View, cat: Catalog, d: nat, k: nat, v1: View, h0: seq<View>, h1: seq<View>, h2: seq<View>)
    requires g.Valid() && Consistent(g, v, cat) && d in cat.dirs && d in cat.chains && k < |cat.dirs[d]|
    requires cat.dirs[d][k].Entry83? && cat.dirs[d][k].attr == ATTR_ARCHIVE && cat.dirs[d][k].clus in cat.chains
    requires v1.fat == Cleared(v.fat, cat.chains[cat.dirs[d][k].clus])
    requires h0 <= h1 <= h2 && |h0| < |h1| < |h2|
    requires forall i {:trigger h1[i]} :: |h0| <= i < |h1| ==>
               && h1[i].data == v.data && FreeAt(h1[i].fat, cat.dirs[d][k].clus)
               && PartlyFreed(v.fat, cat.chains[cat.dirs[d][k].clus], h1[i].fat)
    requires forall i {:trigger h2[i]} :: |h1| <= i < |h2| - 1 ==> EntryThere(v1, cat.chains[d], k, cat.dirs[d][k], h2[i])
    requires CrashSafeBut(g, v, cat, h2[|h2| - 1], Ref(d, k))
    ensures UnsafeUntilDone(g, v, cat, Ref(d, k), h0, h2)
  {
    hide CrashSafeBut, IsChain, Matches, Dir, Cleared, PartlyFreed, TableOk, Orderly, EntriesOwn, OwnersAreEntries, EntryThere;
    var h := cat.dirs[d][k].clus;
    FreedSound(g, v, cat, d, k, v1);
    HeadIsCluster(g, v, cat, d);
    WholeFreed(g, v.fat, cat.chains[h]);
    HeadInChain(g, v.fat, cat, h);
    forall i {:trigger h2[i]} | |h0| <= i < |h2| - 1
      ensures !CrashSafeBut(g, v, cat, h2[i], Ref(d, k))
    {
      if i < |h1| {
        assert h2[i] == h1[i];
        DirWhileFreeing(g, v, cat, d, h, h2[i].fat);
        EntryOnDisk(g, v, cat, d, k);
        FreedLength(v.fat, cat.chains[h], h2[i].fat);
        FreedUnderEntry(g, v, cat, d, k, h2[i]);
      } else {
        ThereFacts(v1, cat.chains[d], k, cat.dirs[d][k], h2[i]);
        DirWhileFreeing(g, v, cat, d, h, v1.fat);
        FreedUnderEntry(g, v, cat, d, k, h2[i]);
      }
    }
  }

  lemma ThereFacts(v: View, ch: seq<nat>, k: nat, cell: Cell, w: View)
    requires EntryThere(v, ch, k, cell, w)
    ensures w.fat == v.fat && k < |Dir(w.data, ch)| && Matches(Dir(w.data, ch)[k], cell)
  {
  }

  lemma WholeFreed(g: Geometry, fat: seq<nat>, ch: seq<nat>)
    ensures PartlyFreed(fat, ch, Cleared(fat, ch))
  {
    assert ch[..|ch|] == ch;
  }

  lemma FreedLength(fat: seq<nat>, ch: seq<nat>, w: seq<nat>)
    requires PartlyFreed(fat, ch, w)
    ensures |w| == |fat|
  {
  }

  lemma HeadInChain(g: Geometry, fat: seq<nat>, cat: Catalog, h: nat)
    requires g.Valid() && TableOk(g, fat, cat) && h in cat.chains
    ensures 2 <= h < |fat| && Cleared(fat, cat.chains[h])[h] == FREE
  {
    ChainOf(g, fat, cat, h);
    assert cat.chains[h][0] == h;
  }

  lemma EntryOnDisk(g: Geometry, v: View, cat: Catalog, d: nat, k: nat)
    requires Consistent(g, v, cat) && d in cat.dirs && d in cat.chains && k < |cat.dirs[d]|
    ensures k < |Dir(v.data, cat.chains[d])| && Matches(Dir(v.data, cat.chains[d])[k], cat.dirs[d][k])
  {
    hide TableOk, TreeOk, Orderly, Matches, Dir;
  }

  lemma RemovedIsSafe(g: Geometry, v: View, cat: Catalog, d: nat, k: nat, v1: View, w: View)
    requires Removing(g, v, cat, d, k, v1, w)
    ensures CrashSafeBut(g, v, cat, w, Ref(d, k))
  {
    hide Sound, Orderly, Erased, Cleared, DirState, Removed, Listing, Undisturbed, SameBut, SameRefs, CrashSafeBut, WellRun, NamesDistinct;
    var cat' := Removed(cat, d, k);
    RemovedSound(g, v, cat, d, k, v1, w);
    RemovedDisturbsNothing(g, v, cat, d, k, v1, w);
    RemovedParts(cat, d, k);
    assert WellRun(cat.dirs[d]) by {
      DirReady(g, v, cat, {}, {}, d);
    }
    ErasedKeeps(cat.dirs[d], d, k);
    FinishedIsSafe(g, v, cat, d, k, w, cat');
  }

  lemma ErasedKeeps(cells: seq<Cell>, d: nat, k: nat)
    requires WellRun(cells) && k < |cells| && cells[k].Entry83? && Parts(cells[k].name) <= k
    ensures var r := Erased(cells, k, Parts(cells[k].name) + 1);
      !r[k].Entry83? && forall i {:trigger cells[i]} :: 0 <= i < |cells| && i != k && cells[i].Entry83? ==> r[i] == cells[i]
  {
    hide WellRun;
    ErasedRefs(cells, d, k);
  }

  lemma RenewedIsSafe(g: Geometry, v: View, cat: Catalog, d: nat, k: nat, c: nat, w: View)
    requires g.Valid() && Consistent(g, v, cat) && d in cat.dirs && k < |cat.dirs[d]|
    requires cat.dirs[d][k].Entry83? && cat.dirs[d][k].attr == ATTR_ARCHIVE && cat.dirs[d][k].clus in cat.chains
    requires Consistent(g, w, Renewed(cat, d, k, c)) && EntryRenewed(v, cat, w, Renewed(cat, d, k, c), d, k, c)
    ensures CrashSafeBut(g, v, cat, w, Ref(d, k))
  {
    hide Consistent, Renewed, Listing, Undisturbed, CrashSafeBut;
    RenewedParts(cat, d, k, c);
    FinishedIsSafe(g, v, cat, d, k, w, Renewed(cat, d, k, c));
  }

  /** While the file of the entry `r` was emptied, the first write left the disk in a state that is not safe even for that;
      the last one is safe. */
  ghost predicate UnsafeAtFirst(g: Geometry, v0: View, cat0: Catalog, r: Ref, h0: seq<View>, h1: seq<View>) {
    |h0| + 1 < |h1| && !CrashSafeBut(g, v0, cat0, h1[|h0|], r) && CrashSafeBut(g, v0, cat0, h1[|h1| - 1], r)
  }

  lemma FreedAtFirst(g: Geometry, v: View, cat: Catalog, d: nat, k: nat, h0: seq<View>, h1: seq<View>, h2: seq<View>)
    requires g.Valid() && Consistent(g, v, cat) && d in cat.dirs && d in cat.chains && k < |cat.dirs[d]|
    requires cat.dirs[d][k].Entry83? && cat.dirs[d][k].attr == ATTR_ARCHIVE && cat.dirs[d][k].clus in cat.chains
    requires h0 <= h1 <= h2 && |h0| < |h1| < |h2|
    requires forall i {:trigger h1[i]} :: |h0| <= i < |h1| ==>
               && h1[i].data == v.data && FreeAt(h1[i].fat, cat.dirs[d][k].clus)
               && PartlyFreed(v.fat, cat.chains[cat.dirs[d][k].clus], h1[i].fat)
    requires CrashSafeBut(g, v, cat, h2[|h2| - 1], Ref(d, k))
    ensures UnsafeAtFirst(g, v, cat, Ref(d, k), h0, h2)
  {
    hide CrashSafeBut, IsChain, Matches, Dir, Cleared, PartlyFreed, TableOk, Orderly, EntriesOwn, OwnersAreEntries;
    var h := cat.dirs[d][k].clus;
    FreedSound(g, v, cat, d, k, v);
    HeadInChain(g, v.fat, cat, h);
    var w := h1[|h0|];
    assert h2[|h0|] == w;
    DirWhileFreeing(g, v, cat, d, h, w.fat);
    EntryOnDisk(g, v, cat, d, k);
    FreedLength(v.fat, cat.chains[h], w.fat);
    FreedUnderEntry(g, v, cat, d, k, w);
  }

  // ---- The other order ----

  /** The catalog after the first `m` clusters of the chain `h` were freed. */
  function Trimmed(cat: Catalog, h: nat, m: nat): Catalog
    requires h in cat.chains && m <= |cat.chains[h]|
  {
    if m == |cat.chains[h]| then Without(cat, h)
    else
      var rest := cat.chains[h][m..];
      cat.(chains := (cat.chains - {h})[rest[0] := rest],
           place := map c | c in cat.place && (cat.place[c].head != h || cat.place[c].idx >= m) ::
                      if cat.place[c].head == h then Home(rest[0], cat.place[c].idx - m) else cat.place[c])
  }

  lemma TableTrimmed(g: Geometry, fat: seq<nat>, cat: Catalog, h: nat, m: nat)
    requires g.Valid() && TableOk(g, fat, cat) && h in cat.chains && m < |cat.chains[h]|
    ensures cat.chains[h][m] in cat.place && cat.place[cat.chains[h][m]] == Home(h, m)
    ensures TableOk(g, Cleared(fat, cat.chains[h][..m]), Trimmed(cat, h, m))
  {
    hide Homed, Linked;
    PlaceOf(g, cat.chains, cat.place, h, m);
    FreedPart(g, cat, h, m);
    TrimmedHomed(g, cat, h, m);
    TrimmedLinked(g, fat, cat, h, m);
    TrimmedInUse(fat, cat, h, m);
  }

  lemma TrimmedLinked(g: Geometry, fat: seq<nat>, cat: Catalog, h: nat, m: nat)
    requires Homed(g, cat.chains, cat.place) && Linked(g, fat, cat.chains) && h in cat.chains && m < |cat.chains[h]|
    requires forall c {:trigger c in cat.chains[h][..m]} :: c in cat.chains[h][..m] <==> c in cat.place && cat.place[c].head == h && cat.place[c].idx < m
    ensures Linked(g, Cleared(fat, cat.chains[h][..m]), Trimmed(cat, h, m).chains)
  {
    var ch, fat', cat' := cat.chains[h], Cleared(fat, cat.chains[h][..m]), Trimmed(cat, h, m);
    forall e, i {:trigger fat'[cat'.chains[e][i]]} | e in cat'.chains && 0 <= i < |cat'.chains[e]|
      ensures cat'.chains[e][i] < |fat'|
      ensures if i + 1 < |cat'.chains[e]| then fat'[cat'.chains[e][i]] == cat'.chains[e][i + 1] else fat'[cat'.chains[e][i]] >= EOC
    {
      var e0, i0 := if e == ch[m] then h else e, if e == ch[m] then i + m else i;
      PlaceOf(g, cat.chains, cat.place, e0, i0);
      assert fat[cat.chains[e0][i0]] == fat[cat'.chains[e][i]];
    }
  }

  lemma TrimmedInUse(fat: seq<nat>, cat: Catalog, h: nat, m: nat)
    requires InUse(fat, cat.place) && h in cat.chains && m < |cat.chains[h]|
    requires forall c {:trigger c in cat.chains[h][..m]} :: c in cat.chains[h][..m] <==> c in cat.place && cat.place[c].head == h && cat.place[c].idx < m
    ensures InUse(Cleared(fat, cat.chains[h][..m]), Trimmed(cat, h, m).place)
  {
    var fat', cat' := Cleared(fat, cat.chains[h][..m]), Trimmed(cat, h, m);
    forall c {:trigger fat'[c]} | 2 <= c < |fat'|
      ensures c in cat'.place <==> fat'[c] != FREE && fat'[c] != BAD
    {
      assert c in cat.place <==> fat[c] != FREE && fat[c] != BAD;
    }
  }

  /** The freed clusters are those with the first places of the chain. */
  lemma FreedPart(g: Geometry, cat: Catalog, h: nat, m: nat)
    requires Homed(g, cat.chains, cat.place) && h in cat.chains && m <= |cat.chains[h]|
    ensures forall c {:trigger c in cat.chains[h][..m]} :: c in cat.chains[h][..m] <==> c in cat.place && cat.place[c].head == h && cat.place[c].idx < m
  {
    forall c
      ensures c in cat.chains[h][..m] <==> c in cat.place && cat.place[c].head == h && cat.place[c].idx < m
    {
      if c in cat.chains[h][..m] {
        var i :| 0 <= i < m && cat.chains[h][i] == c;
        PlaceOf(g, cat.chains, cat.place, h, i);
      }
    }
  }

  lemma TrimmedHomed(g: Geometry, cat: Catalog, h: nat, m: nat)
    requires Homed(g, cat.chains, cat.place) && h in cat.chains && m < |cat.chains[h]|
    ensures Homed(g, Trimmed(cat, h, m).chains, Trimmed(cat, h, m).place)
  {
    var ch, cat' := cat.chains[h], Trimmed(cat, h, m);
    PlaceOf(g, cat.chains, cat.place, h, m);
    RestIsNew(g, cat, h, m);
    forall e {:trigger cat'.chains[e]} | e in cat'.chains
      ensures |cat'.chains[e]| > 0 && cat'.chains[e][0] == e
    {
      assert e != ch[m] ==> |cat.chains[e]| > 0;
    }
    forall e, i {:trigger cat'.chains[e][i]} | e in cat'.chains && 0 <= i < |cat'.chains[e]|
      ensures g.IsCluster(cat'.chains[e][i]) && cat'.chains[e][i] in cat'.place && cat'.place[cat'.chains[e][i]] == Home(e, i)
    {
      TrimmedPlace(g, cat, h, m, e, i);
    }
    forall c {:trigger c in cat'.place} | c in cat'.place
      ensures cat'.place[c].head in cat'.chains && cat'.place[c].idx < |cat'.chains[cat'.place[c].head]|
      ensures cat'.chains[cat'.place[c].head][cat'.place[c].idx] == c
    {
      PlaceFacts(g, cat.chains, cat.place, c);
    }
  }

  lemma TrimmedPlace(g: Geometry, cat: Catalog, h: nat, m: nat, e: nat, i: nat)
    requires Homed(g, cat.chains, cat.place) && h in cat.chains && m < |cat.chains[h]|
    requires e in Trimmed(cat, h, m).chains && i < |Trimmed(cat, h, m).chains[e]|
    ensures var cat' := Trimmed(cat, h, m);
      g.IsCluster(cat'.chains[e][i]) && cat'.chains[e][i] in cat'.place && cat'.place[cat'.chains[e][i]] == Home(e, i)
  {
    hide Homed;
    var ch := cat.chains[h];
    if e == ch[m] {
      PlaceOf(g, cat.chains, cat.place, h, i + m);
    } else {
      PlaceOf(g, cat.chains, cat.place, e, i);
    }
  }

  /** Freeing a front part of a chain that nothing refers to leaves a sound volume: the rest is still a chain. */
  lemma SoundTrimmed(g: Geometry, v: View, cat: Catalog, h: nat, hole: set<Ref>, m: nat, w: View)
    requires g.Valid() && Sound(g, v, cat, {h}, hole) && h in cat.chains && m <= |cat.chains[h]|
    requires w.fat == Cleared(v.fat, cat.chains[h][..m]) && w.data == v.data
    ensures Sound(g, w, Trimmed(cat, h, m), if m == |cat.chains[h]| then {} else {cat.chains[h][m]}, hole)
  {
    hide TableOk, AllMatch, Dir, Cleared, TreeOk, DirsOk, Trimmed;
    var ch := cat.chains[h];
    if m == |ch| {
      assert ch[..m] == ch;
      TrimmedAll(cat, h);
      SoundFree(g, v, cat, {h}, hole, h, w);
      assert {h} - {h} == {};
    } else {
      ClearedLength(v.fat, ch[..m]);
      HomedKnown(g, v.fat, cat);
      TableTrimmed(g, v.fat, cat, h, m);
      TreeTrimmed(g, cat, h, hole, m);
      DirsRecorded(w.data, cat, Trimmed(cat, h, m));
    }
  }

  lemma TrimmedAll(cat: Catalog, h: nat)
    requires h in cat.chains
    ensures Trimmed(cat, h, |cat.chains[h]|) == Without(cat, h)
  {
  }

  lemma ClearedLength(fat: seq<nat>, cs: seq<nat>)
    ensures |Cleared(fat, cs)| == |fat|
    ensures (forall c | 0 <= c < |fat| :: fat[c] < FAT_VALUES) ==> forall c | 0 <= c < |fat| :: Cleared(fat, cs)[c] < FAT_VALUES
  {
  }

  lemma HomedKnown(g: Geometry, fat: seq<nat>, cat: Catalog)
    requires TableOk(g, fat, cat)
    ensures Homed(g, cat.chains, cat.place)
  {
    hide Homed, Linked, InUse;
  }

  lemma TreeTrimmed(g: Geometry, cat: Catalog, h: nat, hole: set<Ref>, m: nat)
    requires TreeOk(g, cat, {h}, hole) && Homed(g, cat.chains, cat.place) && h in cat.chains && m < |cat.chains[h]|
    ensures var cat' := Trimmed(cat, h, m);
      && TreeOk(g, cat', {cat.chains[h][m]}, hole)
      && cat'.dirs == cat.dirs && cat'.dirs.Keys <= cat'.chains.Keys
      && forall d | d in cat.dirs :: d in cat'.chains && cat'.chains[d] == cat.chains[d]
  {
    hide Homed, OwnersAreEntries;
    RestIsNew(g, cat, h, m);
    var rest, cat' := cat.chains[h][m..], Trimmed(cat, h, m);
    assert cat'.chains.Keys == (cat.chains.Keys - {h}) + {rest[0]};
    assert Shape(g, cat', {rest[0]});
    forall d, i {:trigger cat'.dirs[d][i]} | d in cat'.dirs && 0 <= i < |cat'.dirs[d]| && cat'.dirs[d][i].Entry83? && Ref(d, i) !in hole
      ensures RefOk(g, cat', d, i)
    {
      assert RefOk(g, cat, d, i);
    }
  }

  /** No chain but the one being freed begins at one of its clusters. */
  lemma RestIsNew(g: Geometry, cat: Catalog, h: nat, m: nat)
    requires Homed(g, cat.chains, cat.place) && h in cat.chains && m < |cat.chains[h]|
    ensures cat.chains[h][m] in cat.chains ==> cat.chains[h][m] == h
  {
    PlaceOf(g, cat.chains, cat.place, h, m);
    if cat.chains[h][m] in cat.chains {
      PlaceOf(g, cat.chains, cat.place, cat.chains[h][m], 0);
    }
  }

  /** The disk while a file is removed the other way round: `n` entries of its run are erased, and once all are, the first
      `m` clusters of its chain are free. */
  ghost predicate ErasingFirst(g: Geometry, v: View, cat: Catalog, d: nat, k: nat, n: nat, m: nat, w: View) {
    && d in cat.dirs && d in cat.chains && k < |cat.dirs[d]| && cat.dirs[d][k].Entry83? && cat.dirs[d][k].attr == ATTR_ARCHIVE
    && cat.dirs[d][k].clus in cat.chains && Parts(cat.dirs[d][k].name) <= k
    && n <= Parts(cat.dirs[d][k].name) + 1 && m <= |cat.chains[cat.dirs[d][k].clus]|
    && (m > 0 ==> n == Parts(cat.dirs[d][k].name) + 1)
    && DirState(g, View(Cleared(v.fat, cat.chains[cat.dirs[d][k].clus][..m]), v.data), cat.chains[d],
                Erased(cat.dirs[d], k, n), w)
  }

  lemma ErasingRefs(cells: seq<Cell>, d: nat, k: nat, n: nat)
    requires WellRun(cells) && k < |cells| && cells[k].Entry83? && Parts(cells[k].name) <= k && n <= Parts(cells[k].name)
    ensures SameRefs(cells, Erased(cells, k, n), d, {})
    ensures forall i {:trigger cells[i]} :: 0 <= i < |cells| && cells[i].Entry83? ==> Erased(cells, k, n)[i] == cells[i]
  {
    var p := Parts(cells[k].name);
    forall i | k - p <= i < k - p + n
      ensures cells[i].Part?
    {
      ErasedRun(cells, k, i);
    }
    hide WellRun;
  }

  /** A removal that erases the entry first and frees the chain afterwards would be safe at every write. */
  lemma ErasedFirstIsSafe(g: Geometry, v: View, cat: Catalog, d: nat, k: nat, n: nat, m: nat, w: View)
    requires g.Valid() && Consistent(g, v, cat) && ErasingFirst(g, v, cat, d, k, n, m, w)
    ensures CrashSafeBut(g, v, cat, w, Ref(d, k))
  {
    hide Consistent, CrashSafeBut, CrashSafe, Erased, DirState, Cleared;
    if n <= Parts(cat.dirs[d][k].name) {
      assert cat.chains[cat.dirs[d][k].clus][..0] == [];
      NothingCleared(v.fat);
      assert View(v.fat, v.data) == v;
      RunPartlyErased(g, v, cat, d, k, n, w);
      SafeIsSafeBut(g, v, cat, w, Ref(d, k));
    } else {
      RunErasedFirst(g, v, cat, d, k, m, w);
    }
  }

  lemma RunPartlyErased(g: Geometry, v: View, cat: Catalog, d: nat, k: nat, n: nat, w: View)
    requires g.Valid() && Consistent(g, v, cat) && d in cat.dirs && d in cat.chains && k < |cat.dirs[d]|
    requires cat.dirs[d][k].Entry83? && n <= Parts(cat.dirs[d][k].name) <= k
    requires DirState(g, v, cat.chains[d], Erased(cat.dirs[d], k, n), w)
    ensures CrashSafe(g, v, cat, w)
  {
    hide Linked, InUse, EntriesOwn, OwnersAreEntries, DirsOk, Erased, AllMatch, Dir, SameRefs, Content, WellRun, Homed, Keeps;
    var cells, cells' := cat.dirs[d], Erased(cat.dirs[d], k, n);
    assert WellRun(cells);
    ErasingRefs(cells, d, k, n);
    SoundRewrite(g, v, cat, {}, {}, d, cells', w);
    OwnersKnown(g, cat);
    var cat' := WithCells(cat, d, cells');
    forall h | h in cat.owner && h !in cat.dirs
      ensures Content(w, cat', h) == Content(v, cat, h)
    {
      FilesElsewhere(g, v, cat, d, w, cat', h);
    }
    KeptEntries(g, v, cat, d, w, cat');
    hide Sound;
    assert Sound(g, w, cat', {}, {});
  }

  lemma RunErasedFirst(g: Geometry, v: View, cat: Catalog, d: nat, k: nat, m: nat, w: View)
    requires g.Valid() && Consistent(g, v, cat)
    requires d in cat.dirs && k < |cat.dirs[d]| && cat.dirs[d][k].Entry83?
    requires ErasingFirst(g, v, cat, d, k, Parts(cat.dirs[d][k].name) + 1, m, w)
    ensures CrashSafeBut(g, v, cat, w, Ref(d, k))
  {
    hide Linked, InUse, EntriesOwn, OwnersAreEntries, DirsOk, Erased, AllMatch, Dir, SameRefs, SameBut, Content, WellRun;
    hide CrashSafeBut, Trimmed, Cleared, Homed;
    var h, cells, cells' := cat.dirs[d][k].clus, cat.dirs[d], Erased(cat.dirs[d], k, Parts(cat.dirs[d][k].name) + 1);
    var v1 := View(Cleared(v.fat, cat.chains[h][..m]), v.data);
    FreedSound(g, v, cat, d, k, v);
    assert WellRun(cells);
    ErasedRefs(cells, d, k);
    ErasedKeeps(cells, d, k);
    SoundDetach(g, v, cat, h);
    var cut := Trimmed(Detached(cat, h), h, m);
    SoundTrimmed(g, v, Detached(cat, h), h, {Ref(d, k)}, m, v1);
    TrimmedParts(g, v, cat, h, m);
    var pend: set<nat> := if m == |cat.chains[h]| then {} else {cat.chains[h][m]};
    SoundRewrite(g, v1, cut, pend, {Ref(d, k)}, d, cells', w);
    var cat' := WithCells(cut, d, cells');
    HoleCloses(g, w, cat', pend, Ref(d, k));
    RunErasedContents(g, v, cat, d, k, m, w, cat');
    hide Sound;
    ChangedIsSafe(g, v, cat, d, k, w, cat', pend);
  }

  lemma RunErasedContents(g: Geometry, v: View, cat: Catalog, d: nat, k: nat, m: nat, w: View, cat': Catalog)
    requires g.Valid() && Consistent(g, v, cat) && d in cat.dirs && k < |cat.dirs[d]| && cat.dirs[d][k].Entry83?
    requires ErasingFirst(g, v, cat, d, k, Parts(cat.dirs[d][k].name) + 1, m, w)
    requires forall f | f in cat.chains && f != cat.dirs[d][k].clus :: f in cat'.chains && cat'.chains[f] == cat.chains[f]
    ensures forall f | f in cat.owner && f !in cat.dirs && f != cat.dirs[d][k].clus :: Content(w, cat', f) == Content(v, cat, f)
  {
    hide Linked, InUse, EntriesOwn, OwnersAreEntries, DirsOk, Erased, AllMatch, Dir, Content, Orderly, Cleared, Homed;
    OwnersKnown(g, cat);
    forall f | f in cat.owner && f !in cat.dirs && f != cat.dirs[d][k].clus
      ensures Content(w, cat', f) == Content(v, cat, f)
    {
      FilesElsewhere(g, v, cat, d, w, cat', f);
    }
  }

  lemma TrimmedParts(g: Geometry, v: View, cat: Catalog, h: nat, m: nat)
    requires Consistent(g, v, cat) && h in cat.chains && m <= |cat.chains[h]| && h !in cat.dirs
    ensures var cut := Trimmed(Detached(cat, h), h, m);
      && cut.dirs == cat.dirs
      && (forall f | f in cat.chains && f != h :: f in cut.chains && cut.chains[f] == cat.chains[f])
      && forall d | d in cat.dirs :: d in cut.chains && cut.chains[d] == cat.chains[d]
  {
    hide Homed, Linked, InUse, DirsOk, EntriesOwn, OwnersAreEntries, Orderly;
    if m < |cat.chains[h]| {
      RestIsNew(g, cat, h, m);
    }
  }

  // ---- Extending a directory for a new entry ----

  /** The directories of `cat0` are on the disk as they were. */
  ghost predicate DirsThere(g: Geometry, v0: View, cat0: Catalog, w: View) {
    forall d {:trigger cat0.chains[d]} :: d in cat0.dirs && d in cat0.chains ==>
      IsChain(g, w.fat, cat0.chains[d]) && Dir(w.data, cat0.chains[d]) == Dir(v0.data, cat0.chains[d])
  }

  /** However the image is described, a directory on the disk as it was has no short entry it did not have. */
  lemma EntryWasThere(g: Geometry, v0: View, cat0: Catalog, w: View, cat: Catalog, pend: set<nat>, d: nat, i: nat)
    requires g.Valid() && Consistent(g, v0, cat0) && Sound(g, w, cat, pend, {}) && Keeps(v0, cat0, w, cat)
    requires DirsThere(g, v0, cat0, w) && d in cat0.dirs && d in cat.dirs && i < |cat.dirs[d]| && cat.dirs[d][i].Entry83?
    ensures i < |cat0.dirs[d]| && cat0.dirs[d][i].Entry83?
    ensures cat0.dirs[d][i].clus == cat.dirs[d][i].clus && cat0.dirs[d][i].attr == cat.dirs[d][i].attr
    ensures d in cat0.chains && d in cat.chains && cat.chains[d] == cat0.chains[d]
  {
    hide TableOk, EntriesOwn, OwnersAreEntries, Orderly, Content, IsChain, Matches, Dir, Keeps;
    HeadOf(g, v0, cat0, d);
    ChainStays(g, v0, cat0, w, cat, pend, d, cat0.chains[d]);
    assert AllMatch(Dir(w.data, cat0.chains[d]), cat.dirs[d]) && AllMatch(Dir(w.data, cat0.chains[d]), cat0.dirs[d]);
    LiveEntry(Dir(w.data, cat0.chains[d])[i], cat.dirs[d][i], cat0.dirs[d][i]);
  }

  /** Nor is there a directory that was not there. */
  lemma {:induction false} DirWasThere(g: Geometry, v0: View, cat0: Catalog, w: View, cat: Catalog, pend: set<nat>, d: nat)
    requires g.Valid() && Consistent(g, v0, cat0) && Sound(g, w, cat, pend, {}) && Keeps(v0, cat0, w, cat)
    requires DirsThere(g, v0, cat0, w) && d in cat.dirs && d in cat.depth
    ensures d in cat0.dirs
    decreases cat.depth[d]
  {
    hide TableOk, DirsOk, Orderly, Content, Keeps, DirsThere, OwnersAreEntries;
    if d != g.rootCluster {
      var o := cat.owner[d];
      OwnerDir(g, cat, pend, {}, d);
      assert RefOk(g, cat, o.dir, o.idx);
      DirWasThere(g, v0, cat0, w, cat, pend, o.dir);
      EntryWasThere(g, v0, cat0, w, cat, pend, o.dir, o.idx);
      assert RefOk(g, cat0, o.dir, o.idx);
    }
  }

  /** Nor a chain with an owner. */
  lemma OwnedWasThere(g: Geometry, v0: View, cat0: Catalog, w: View, cat: Catalog, pend: set<nat>, h: nat)
    requires g.Valid() && Consistent(g, v0, cat0) && Sound(g, w, cat, pend, {}) && Keeps(v0, cat0, w, cat)
    requires DirsThere(g, v0, cat0, w) && h in cat.owner
    ensures h in cat0.chains
  {
    hide TableOk, DirsOk, Orderly, Content, Keeps, DirsThere, OwnersAreEntries;
    var o := cat.owner[h];
    OwnerDir(g, cat, pend, {}, h);
    DirWasThere(g, v0, cat0, w, cat, pend, o.dir);
    EntryWasThere(g, v0, cat0, w, cat, pend, o.dir, o.idx);
    assert RefOk(g, cat0, o.dir, o.idx);
  }

  /** A cluster in use that was free before is in a chain that nothing refers to. */
  lemma NewClusterIsStray(g: Geometry, v0: View, cat0: Catalog, w: View, cat: Catalog, pend: set<nat>, x: nat)
    requires g.Valid() && Consistent(g, v0, cat0) && Sound(g, w, cat, pend, {}) && Keeps(v0, cat0, w, cat)
    requires DirsThere(g, v0, cat0, w) && forall h {:trigger cat0.chains[h]} :: h in cat0.chains ==> IsChain(g, w.fat, cat0.chains[h])
    requires OneStray(cat, pend)
    requires g.IsCluster(x) && v0.fat[x] == FREE && w.fat[x] == EOC_MARK
    ensures x in pend
  {
    hide DirsOk, EntriesOwn, OwnersAreEntries, Orderly, Content, Keeps, DirsThere, IsChain, Linked, Homed;
    assert x in cat.place;
    HeadsAreChains(g, cat.chains, cat.place);
    var h, i := cat.place[x].head, cat.place[x].idx;
    PlaceFacts(g, cat.chains, cat.place, x);
    if h !in pend {
      if h != g.rootCluster {
        OwnedWasThere(g, v0, cat0, w, cat, pend, h);
      }
      HeadOf(g, v0, cat0, h);
      ChainStays(g, v0, cat0, w, cat, pend, h, cat0.chains[h]);
      PlaceOf(g, cat0.chains, cat0.place, h, i);
    }
  }

  lemma PlaceFacts(g: Geometry, chains: ChainMap, place: Places, x: nat)
    requires Homed(g, chains, place) && x in place
    ensures place[x].head in chains && place[x].idx < |chains[place[x].head]| && chains[place[x].head][place[x].idx] == x
  {
  }

  /** The disk with the cluster for a new entry and one for its directory closed, and neither referred to. */
  ghost predicate TwoClosed(g: Geometry, v0: View, newClus: nat, c: nat, w: View) {
    && g.IsCluster(newClus) && g.IsCluster(c) && c != newClus && Fits(g, v0) && v0.fat[newClus] == v0.fat[c] == FREE
    && w.fat == v0.fat[newClus := EOC_MARK][c := EOC_MARK] && |w.data| == |v0.data|
    && forall x {:trigger w.data[x]} :: 0 <= x < |w.data| && x != newClus ==> w.data[x] == v0.data[x]
  }

  lemma ChainsWhileClosed(g: Geometry, v0: View, cat0: Catalog, newClus: nat, c: nat, w: View, h: nat)
    requires g.Valid() && Consistent(g, v0, cat0) && TwoClosed(g, v0, newClus, c, w) && h in cat0.chains
    ensures IsChain(g, w.fat, cat0.chains[h]) && Dir(w.data, cat0.chains[h]) == Dir(v0.data, cat0.chains[h])
  {
    hide TreeOk, DirsOk, Orderly, Homed, Linked, InUse, Distinct, Entries, ChainSectors;
    ChainOf(g, v0.fat, cat0, h);
    var ch := cat0.chains[h];
    forall i {:trigger ch[i]} | 0 <= i < |ch|
      ensures ch[i] != newClus && ch[i] != c && ch[i] < |v0.data| && v0.data[ch[i]] == w.data[ch[i]]
    {
      ChainInUse(g, v0.fat, ch, i);
    }
    ChainFrame(v0.data, w.data, ch);
  }

  lemma ChainInUse(g: Geometry, fat: seq<nat>, ch: seq<nat>, i: nat)
    requires IsChain(g, fat, ch) && i < |ch|
    ensures g.IsCluster(ch[i]) && fat[ch[i]] != FREE
  {
    assert fat[ch[i]] == fat[ch[i]];
    if i + 1 < |ch| {
      assert g.IsCluster(ch[i + 1]);
    }
  }

  /** Between the two allocations of making an entry in a full directory two clusters are referred to by nothing: that is
      never safe. */
  lemma TwoStraysNotSafe(g: Geometry, v0: View, cat0: Catalog, newClus: nat, c: nat, w: View)
    requires g.Valid() && Consistent(g, v0, cat0) && TwoClosed(g, v0, newClus, c, w)
    ensures !CrashSafe(g, v0, cat0, w)
  {
    hide Consistent, Sound, Keeps;
    if CrashSafe(g, v0, cat0, w) {
      var cat, pend :| Sound(g, w, cat, pend, {}) && OneStray(cat, pend) && Keeps(v0, cat0, w, cat);
      forall h {:trigger cat0.chains[h]} | h in cat0.chains
        ensures IsChain(g, w.fat, cat0.chains[h]) && Dir(w.data, cat0.chains[h]) == Dir(v0.data, cat0.chains[h])
      {
        ChainsWhileClosed(g, v0, cat0, newClus, c, w, h);
      }
      NewClusterIsStray(g, v0, cat0, w, cat, pend, newClus);
      NewClusterIsStray(g, v0, cat0, w, cat, pend, c);
      assert {newClus, c} <= pend;
      SubsetSize({newClus, c}, pend);
      assert false;
    }
  }

  /** The disk with a directory linked to a new cluster that still holds what it held before; `newClus` is the cluster for
      the new entry. */
  ghost predicate LinkedUnzeroed(g: Geometry, v0: View, cat0: Catalog, d: nat, newClus: nat, c: nat, w: View) {
    && d in cat0.dirs && d in cat0.chains && cat0.chains[d] != []
    && g.IsCluster(newClus) && g.IsCluster(c) && c != newClus && Fits(g, v0) && Fits(g, w)
    && v0.fat[newClus] == v0.fat[c] == FREE && cat0.chains[d][|cat0.chains[d]| - 1] < |v0.fat|
    && w.fat == LinkedFat(v0.fat[newClus := EOC_MARK], cat0.chains[d][|cat0.chains[d]| - 1], c)
    && forall x {:trigger w.data[x]} :: 0 <= x < |w.data| && x != newClus ==> w.data[x] == v0.data[x]
  }

  /** An entry that a directory can have read without any file losing its chain or its bytes: one that is not in use, a
      record of a name, or a dot entry. */
  ghost predicate HarmlessAs(g: Geometry, e: Entry, cell: Cell) {
    Matches(e, cell) && !cell.Entry83? && (cell.Dot? ==> cell.clus == 0 || g.IsCluster(cell.clus))
  }

  ghost predicate Harmless(g: Geometry, e: Entry) {
    exists cell :: HarmlessAs(g, e, cell)
  }

  ghost predicate AllHarmless(g: Geometry, es: seq<Entry>) {
    forall i {:trigger es[i]} :: 0 <= i < |es| ==> Harmless(g, es[i])
  }

  /** A live short entry is not harmless. */
  lemma LiveIsHarmful(g: Geometry, e: Entry)
    requires e[0] !in {0, DELETED, DOT} && e[11] in {ATTR_DIR, ATTR_ARCHIVE}
    ensures !Harmless(g, e)
  {
  }

  lemma LinkedChains(g: Geometry, v0: View, cat0: Catalog, d: nat, newClus: nat, c: nat, w: View, h: nat)
    requires g.Valid() && Consistent(g, v0, cat0) && LinkedUnzeroed(g, v0, cat0, d, newClus, c, w) && h in cat0.chains
    ensures IsChain(g, w.fat, if h == d then cat0.chains[d] + [c] else cat0.chains[h])
    ensures cat0.chains[h] != [] && cat0.chains[h][0] == h
  {
    hide TreeOk, DirsOk, Orderly, Homed, Linked, InUse, LinkedFat;
    ChainOf(g, v0.fat, cat0, h);
    var fat := v0.fat[newClus := EOC_MARK];
    ClosedElsewhere(g, v0.fat, cat0.chains[h], newClus);
    if h == d {
      ChainExtended(g, fat, cat0.chains[d], c);
    } else {
      ChainOf(g, v0.fat, cat0, d);
      LastElsewhere(g, v0.fat, cat0, d, h, fat, c);
    }
  }

  lemma ClosedElsewhere(g: Geometry, fat: seq<nat>, ch: seq<nat>, x: nat)
    requires IsChain(g, fat, ch) && x < |fat| && fat[x] == FREE
    ensures IsChain(g, fat[x := EOC_MARK], ch)
  {
    var fat' := fat[x := EOC_MARK];
    forall i {:trigger fat'[ch[i]]} | 0 <= i < |ch|
      ensures if i + 1 < |ch| then fat'[ch[i]] == ch[i + 1] else fat'[ch[i]] >= EOC
    {
      ChainInUse(g, fat, ch, i);
      assert fat[ch[i]] == fat'[ch[i]];
    }
  }

  lemma LastElsewhere(g: Geometry, fat0: seq<nat>, cat: Catalog, d: nat, h: nat, fat: seq<nat>, c: nat)
    requires TableOk(g, fat0, cat) && d in cat.chains && h in cat.chains && d != h && cat.chains[d] != []
    requires IsChain(g, fat, cat.chains[h]) && |fat| == g.totalClusters + 2 && g.IsCluster(c) && fat[c] == FREE
    requires cat.chains[d][|cat.chains[d]| - 1] < |fat|
    ensures IsChain(g, LinkedFat(fat, cat.chains[d][|cat.chains[d]| - 1], c), cat.chains[h])
  {
    hide Linked, InUse, Homed;
    var ch, last := cat.chains[h], cat.chains[d][|cat.chains[d]| - 1];
    var fat' := LinkedFat(fat, last, c);
    forall i {:trigger fat'[ch[i]]} | 0 <= i < |ch|
      ensures if i + 1 < |ch| then fat'[ch[i]] == ch[i + 1] else fat'[ch[i]] >= EOC
    {
      ChainInUse(g, fat, ch, i);
      NotShared(g, cat.chains, cat.place, d, h, i);
      assert last in cat.chains[d];
      assert fat[ch[i]] == fat'[ch[i]];
    }
  }

  /** The directory reads on into what the cluster held before. */
  lemma StaleDir(g: Geometry, v0: View, cat0: Catalog, d: nat, newClus: nat, c: nat, w: View)
    requires g.Valid() && Consistent(g, v0, cat0) && LinkedUnzeroed(g, v0, cat0, d, newClus, c, w)
    ensures Dir(w.data, cat0.chains[d] + [c]) == Dir(v0.data, cat0.chains[d]) + Entries(v0.data[c])
  {
    hide Consistent, IsChain, Entries, ChainSectors, LinkedFat;
    var ch := cat0.chains[d];
    LinkedChains(g, v0, cat0, d, newClus, c, w, d);
    ClustersOf(g, w.fat, ch + [c]);
    assert forall i | 0 <= i < |ch| :: (ch + [c])[i] == ch[i] && g.IsCluster(ch[i]);
    ChainAppend(w.data, ch, c);
    EntriesAppend(ChainSectors(w.data, ch), w.data[c]);
    DirSame(g, v0, cat0, d, newClus, w);
  }

  /** However the image is described, the stale cluster's entries are the last ones of the directory. */
  lemma StaleCells(g: Geometry, v0: View, cat0: Catalog, d: nat, newClus: nat, c: nat, w: View, cat: Catalog, pend: set<nat>)
    requires g.Valid() && Consistent(g, v0, cat0) && LinkedUnzeroed(g, v0, cat0, d, newClus, c, w)
    requires Sound(g, w, cat, pend, {}) && Keeps(v0, cat0, w, cat)
    ensures d in cat.dirs && d in cat.chains && cat.chains[d] == cat0.chains[d] + [c]
    ensures |cat.dirs[d]| == |cat0.dirs[d]| + |Entries(v0.data[c])|
    ensures forall i {:trigger Entries(v0.data[c])[i]} :: 0 <= i < |Entries(v0.data[c])| ==>
              Matches(Entries(v0.data[c])[i], cat.dirs[d][|cat0.dirs[d]| + i])
  {
    hide TableOk, Orderly, Content, IsChain, Matches, Dir, Entries, Keeps, KeepsBut, LinkedFat, EntriesOwn, OwnersAreEntries;
    KeepsAllBut(v0, cat0, w, cat, Ref(0, 0));
    NoRootZero(g, v0, cat0);
    DirStays(g, v0, cat0, w, cat, pend, Ref(0, 0), d);
    LinkedChains(g, v0, cat0, d, newClus, c, w, d);
    ChainStays(g, v0, cat0, w, cat, pend, d, cat0.chains[d] + [c]);
    StaleDir(g, v0, cat0, d, newClus, c, w);
    var es, dir := Entries(v0.data[c]), Dir(w.data, cat0.chains[d] + [c]);
    assert AllMatch(dir, cat.dirs[d]) && AllMatch(Dir(v0.data, cat0.chains[d]), cat0.dirs[d]);
    forall i {:trigger es[i]} | 0 <= i < |es|
      ensures Matches(es[i], cat.dirs[d][|cat0.dirs[d]| + i])
    {
      assert dir[|cat0.dirs[d]| + i] == es[i];
    }
  }

  lemma NoRootZero(g: Geometry, v: View, cat: Catalog)
    requires Consistent(g, v, cat)
    ensures 0 !in cat.dirs
  {
    hide TreeOk, Linked, InUse, Orderly;
    if 0 in cat.dirs {
      PlaceOf(g, cat.chains, cat.place, 0, 0);
    }
  }

  /** The directory's own clusters read as before. */
  lemma DirSame(g: Geometry, v0: View, cat0: Catalog, d: nat, newClus: nat, w: View)
    requires g.Valid() && Consistent(g, v0, cat0) && d in cat0.chains && Fits(g, w)
    requires newClus < |v0.fat| && v0.fat[newClus] == FREE
    requires forall x {:trigger w.data[x]} :: 0 <= x < |w.data| && x != newClus ==> x < |v0.data| && w.data[x] == v0.data[x]
    ensures Dir(w.data, cat0.chains[d]) == Dir(v0.data, cat0.chains[d])
  {
    hide TreeOk, DirsOk, Orderly, Homed, Linked, InUse, Distinct, Entries, ChainSectors;
    ChainOf(g, v0.fat, cat0, d);
    var ch := cat0.chains[d];
    forall i {:trigger ch[i]} | 0 <= i < |ch|
      ensures ch[i] != newClus && ch[i] < |v0.data| && v0.data[ch[i]] == w.data[ch[i]]
    {
      ChainInUse(g, v0.fat, ch, i);
    }
    ChainFrame(v0.data, w.data, ch);
  }

  /** However the image is described, a live short entry of the stale cluster would need a chain of its own, and there is
      none: every chain has its owner, but for the one of the cluster `newClus`. */
  lemma StaleEntryOwnsNothing(g: Geometry, v0: View, cat0: Catalog, d: nat, newClus: nat, c: nat, w: View,
                              cat: Catalog, pend: set<nat>, i: nat)
    requires g.Valid() && Consistent(g, v0, cat0) && LinkedUnzeroed(g, v0, cat0, d, newClus, c, w)
    requires Sound(g, w, cat, pend, {}) && Keeps(v0, cat0, w, cat)
    requires d in cat.dirs && d in cat.chains && cat.chains[d] == cat0.chains[d] + [c]
    requires |cat0.dirs[d]| <= i < |cat.dirs[d]| && (cat.dirs[d][i].Entry83? ==> cat.dirs[d][i].clus != newClus)
    ensures !cat.dirs[d][i].Entry83?
  {
    hide DirsOk, Orderly, Content, IsChain, KeptAt, Linked, Keeps, OwnersAreEntries, Homed, LinkedFat;
    if cat.dirs[d][i].Entry83? {
      var x := cat.dirs[d][i].clus;
      assert RefOk(g, cat, d, i);
      PlaceOf(g, cat.chains, cat.place, d, |cat0.chains[d]|);
      HeadIsHome(g, cat, x);
      assert x != c;
      InUseBefore(g, v0, cat0, d, newClus, c, w, x);
      var h, j := cat0.place[x].head, cat0.place[x].idx;
      PlaceFacts(g, cat0.chains, cat0.place, x);
      LinkedChains(g, v0, cat0, d, newClus, c, w, h);
      ChainStays(g, v0, cat0, w, cat, pend, h, if h == d then cat0.chains[d] + [c] else cat0.chains[h]);
      PlaceOf(g, cat.chains, cat.place, h, j);
      assert h == x;
      OwnedBefore(g, v0, cat0, w, cat, pend, x);
    }
  }

  lemma HeadIsHome(g: Geometry, cat: Catalog, x: nat)
    requires Homed(g, cat.chains, cat.place) && x in cat.chains
    ensures x in cat.place && cat.place[x] == Home(x, 0) && g.IsCluster(x)
  {
    PlaceOf(g, cat.chains, cat.place, x, 0);
  }

  lemma InUseBefore(g: Geometry, v0: View, cat0: Catalog, d: nat, newClus: nat, c: nat, w: View, x: nat)
    requires g.Valid() && Consistent(g, v0, cat0) && LinkedUnzeroed(g, v0, cat0, d, newClus, c, w)
    requires g.IsCluster(x) && x != c && x != newClus && w.fat[x] != FREE && w.fat[x] != BAD
    ensures x in cat0.place
  {
    hide TreeOk, DirsOk, Orderly, Linked;
    var ch := cat0.chains[d];
    PlaceOf(g, cat0.chains, cat0.place, d, |ch| - 1);
  }

  /** The root, and every chain an entry of `cat0` owns, belong to nobody else. */
  lemma OwnedBefore(g: Geometry, v0: View, cat0: Catalog, w: View, cat: Catalog, pend: set<nat>, x: nat)
    requires Consistent(g, v0, cat0) && TreeOk(g, cat, pend, {}) && Keeps(v0, cat0, w, cat)
    requires x in cat0.chains && x in cat.owner
    ensures x in cat0.owner && cat.owner[x] == cat0.owner[x]
    ensures cat0.owner[x].dir in cat0.dirs && cat0.owner[x].idx < |cat0.dirs[cat0.owner[x].dir]|
  {
    hide TableOk, DirsOk, Orderly, Content;
    OwnerDir(g, cat0, {}, {}, x);
    var o := cat0.owner[x];
    assert KeptAt(v0, cat0, w, cat, o.dir, o.idx);
    assert RefOk(g, cat, o.dir, o.idx);
  }

  /** None of the entries names the cluster that was taken for the new entry. */
  predicate NamesNot(es: seq<Entry>, c: nat) {
    forall i {:trigger es[i]} :: 0 <= i < |es| ==> EntryCluster(es[i]) != c
  }

  lemma SafeMeansHarmless(g: Geometry, v0: View, cat0: Catalog, d: nat, newClus: nat, c: nat, w: View, cat: Catalog, pend: set<nat>,
                          i: nat)
    requires g.Valid() && Consistent(g, v0, cat0) && LinkedUnzeroed(g, v0, cat0, d, newClus, c, w)
    requires Sound(g, w, cat, pend, {}) && Keeps(v0, cat0, w, cat) && NamesNot(Entries(v0.data[c]), newClus)
    requires i < |Entries(v0.data[c])|
    ensures Harmless(g, Entries(v0.data[c])[i])
  {
    hide Sound, Keeps, Matches, Entries, LinkedFat, Consistent, Harmless;
    StaleCells(g, v0, cat0, d, newClus, c, w, cat, pend);
    var e, cell := Entries(v0.data[c])[i], cat.dirs[d][|cat0.dirs[d]| + i];
    NamedCluster(e, cell);
    StaleEntryOwnsNothing(g, v0, cat0, d, newClus, c, w, cat, pend, |cat0.dirs[d]| + i);
    if cell.Dot? {
      DotsLead(g, w, cat, pend, d, |cat0.dirs[d]| + i);
    }
    HarmlessBy(g, e, cell);
  }

  lemma DotsLead(g: Geometry, w: View, cat: Catalog, pend: set<nat>, d: nat, i: nat)
    requires Sound(g, w, cat, pend, {}) && d in cat.dirs && i < |cat.dirs[d]| && cat.dirs[d][i].Dot?
    ensures cat.dirs[d][i].clus == 0 || g.IsCluster(cat.dirs[d][i].clus)
  {
    hide TableOk, DirsOk, OwnersAreEntries;
  }

  lemma HarmlessBy(g: Geometry, e: Entry, cell: Cell)
    requires HarmlessAs(g, e, cell)
    ensures Harmless(g, e)
  {
  }

  lemma NamedCluster(e: Entry, cell: Cell)
    requires Matches(e, cell)
    ensures cell.Entry83? ==> cell.clus == EntryCluster(e)
  {
  }

  // ---- A stale cluster that does no harm ----

  ghost function CellOf(g: Geometry, e: Entry): (cell: Cell)
    requires Harmless(g, e)
    ensures HarmlessAs(g, e, cell)
  {
    var cell :| HarmlessAs(g, e, cell);
    cell
  }

  ghost function CellsOf(g: Geometry, es: seq<Entry>): (cells: seq<Cell>)
    requires AllHarmless(g, es)
    ensures |cells| == |es| && forall i {:trigger cells[i]} :: 0 <= i < |es| ==> HarmlessAs(g, es[i], cells[i])
  {
    seq(|es|, i requires 0 <= i < |es| => CellOf(g, es[i]))
  }

  /** Cells that own nothing may follow the others. */
  lemma TreeAppended(g: Geometry, cat: Catalog, pend: set<nat>, d: nat, ext: seq<Cell>)
    requires TreeOk(g, cat, pend, {}) && d in cat.dirs
    requires forall i {:trigger ext[i]} :: 0 <= i < |ext| ==>
               !ext[i].Entry83? && (ext[i].Dot? ==> ext[i].clus == 0 || g.IsCluster(ext[i].clus))
    ensures TreeOk(g, WithCells(cat, d, cat.dirs[d] + ext), pend, {})
  {
    var cells, cat' := cat.dirs[d] + ext, WithCells(cat, d, cat.dirs[d] + ext);
    forall e, i {:trigger cat'.dirs[e][i]} | e in cat'.dirs && 0 <= i < |cat'.dirs[e]|
      ensures cat'.dirs[e][i].Entry83? ==> RefOk(g, cat', e, i)
      ensures cat'.dirs[e][i].Dot? ==> cat'.dirs[e][i].clus == 0 || g.IsCluster(cat'.dirs[e][i].clus)
    {
      if e != d || i < |cat.dirs[d]| {
        assert cat'.dirs[e][i] == cat.dirs[e][i];
      }
    }
  }

  /** What the linked state is when the stale entries do no harm: a sound volume with the one stray cluster. */
  lemma HarmlessSound(g: Geometry, v0: View, cat0: Catalog, d: nat, newClus: nat, c: nat, w: View)
    requires g.Valid() && Consistent(g, v0, cat0) && LinkedUnzeroed(g, v0, cat0, d, newClus, c, w)
    requires AllHarmless(g, Entries(v0.data[c]))
    ensures CrashSafe(g, v0, cat0, w)
  {
    hide Homed, Linked, InUse, AllMatch, Dir, Entries, LinkedFat, EntriesOwn, OwnersAreEntries, Orderly, Matches, Content, Keeps, Harmless;
    hide CrashSafe, Shape;
    var v := View(v0.fat[newClus := EOC_MARK], w.data);
    StrayIsSafe(g, v0, cat0, newClus, v);
    var ch, ext := cat0.chains[d], CellsOf(g, Entries(v0.data[c]));
    var cat := WithChain(cat0, newClus);
    TableExtend(g, v.fat, cat, d, c, ch[|ch| - 1]);
    TreeExtended(g, cat, {newClus}, {}, d, c);
    TreeAppended(g, Extended(cat, d, c), {newClus}, d, ext);
    StaleDir(g, v0, cat0, d, newClus, c, w);
    StaleMatches(g, v0, cat0, d, c, w, ext);
    var cat' := WithCells(Extended(cat, d, c), d, cat0.dirs[d] + ext);
    forall e {:trigger cat'.dirs[e]} | e in cat'.dirs
      ensures AllMatch(Dir(w.data, cat'.chains[e]), cat'.dirs[e])
    {
      if e != d {
        assert cat'.dirs[e] == cat.dirs[e] && cat'.chains[e] == cat.chains[e];
      }
    }
    assert Sound(g, w, cat', {newClus}, {});
    HarmlessKeeps(g, v0, cat0, d, newClus, c, w, cat', ext);
    assert OneStray(cat', {newClus});
    SafeSo(g, v0, cat0, w, cat', {newClus});
  }

  lemma SafeSo(g: Geometry, v0: View, cat0: Catalog, w: View, cat: Catalog, pend: set<nat>)
    requires Sound(g, w, cat, pend, {}) && OneStray(cat, pend) && Keeps(v0, cat0, w, cat)
    ensures CrashSafe(g, v0, cat0, w)
  {
    hide Sound, OneStray, Keeps;
  }

  lemma StaleMatches(g: Geometry, v0: View, cat0: Catalog, d: nat, c: nat, w: View, ext: seq<Cell>)
    requires Consistent(g, v0, cat0) && d in cat0.dirs && d in cat0.chains && c < |v0.data|
    requires Dir(w.data, cat0.chains[d] + [c]) == Dir(v0.data, cat0.chains[d]) + Entries(v0.data[c])
    requires |ext| == |Entries(v0.data[c])| && forall i {:trigger ext[i]} :: 0 <= i < |ext| ==> HarmlessAs(g, Entries(v0.data[c])[i], ext[i])
    ensures AllMatch(Dir(w.data, cat0.chains[d] + [c]), cat0.dirs[d] + ext)
  {
    hide TableOk, TreeOk, Orderly, Dir, Entries, Matches;
    assert AllMatch(Dir(v0.data, cat0.chains[d]), cat0.dirs[d]);
  }

  lemma HarmlessKeeps(g: Geometry, v0: View, cat0: Catalog, d: nat, newClus: nat, c: nat, w: View, cat': Catalog, ext: seq<Cell>)
    requires g.Valid() && Consistent(g, v0, cat0) && LinkedUnzeroed(g, v0, cat0, d, newClus, c, w)
    requires cat' == WithCells(Extended(WithChain(cat0, newClus), d, c), d, cat0.dirs[d] + ext)
    requires newClus !in cat0.chains && newClus !in cat0.place
    ensures Keeps(v0, cat0, w, cat')
  {
    hide Linked, InUse, DirsOk, Orderly, Content, EntriesOwn, OwnersAreEntries, LinkedFat, Homed, Keeps;
    OwnersKnown(g, cat0);
    forall h | h in cat0.owner && h !in cat0.dirs
      ensures Content(w, cat', h) == Content(v0, cat0, h)
    {
      assert newClus !in cat0.place;
      FilesElsewhere(g, v0, cat0, d, w, cat', h);
    }
    KeptEntries(g, v0, cat0, d, w, cat');
  }

  /** Exactly when a directory may be linked to a cluster that is not zeroed yet: when none of the entries the cluster holds
      does harm. */
  lemma StaleExactly(g: Geometry, v0: View, cat0: Catalog, d: nat, newClus: nat, c: nat, w: View)
    requires g.Valid() && Consistent(g, v0, cat0) && LinkedUnzeroed(g, v0, cat0, d, newClus, c, w)
    requires NamesNot(Entries(v0.data[c]), newClus)
    ensures CrashSafe(g, v0, cat0, w) <==> AllHarmless(g, Entries(v0.data[c]))
  {
    var es := Entries(v0.data[c]);
    hide Consistent, Sound, Keeps, LinkedUnzeroed, Harmless, Entries, NamesNot, OneStray;
    if CrashSafe(g, v0, cat0, w) {
      var cat, pend :| Sound(g, w, cat, pend, {}) && OneStray(cat, pend) && Keeps(v0, cat0, w, cat);
      forall i {:trigger es[i]} | 0 <= i < |es|
        ensures Harmless(g, es[i])
      {
        SafeMeansHarmless(g, v0, cat0, d, newClus, c, w, cat, pend, i);
      }
    }
    if AllHarmless(g, es) {
      HarmlessSound(g, v0, cat0, d, newClus, c, w);
    }
  }

  /** A cluster of blanks, as a text file may leave them, reads as live short entries. */
  lemma BlanksAreHarmful(g: Geometry, v0: View, cat0: Catalog, d: nat, newClus: nat, c: nat, w: View, blank: Sector)
    requires g.Valid() && Consistent(g, v0, cat0) && LinkedUnzeroed(g, v0, cat0, d, newClus, c, w)
    requires blank == seq(SECTOR_SIZE, _ => SPACE) && v0.data[c] == seq(g.secPerClus, _ => blank)
    ensures !CrashSafe(g, v0, cat0, w)
  {
    var es := Entries(v0.data[c]);
    BlankEntries(g.secPerClus, blank);
    hide Consistent, LinkedUnzeroed, Harmless, Entries, CrashSafe;
    NewClusBound(g, v0, cat0, d, newClus, c, w);
    StaleExactly(g, v0, cat0, d, newClus, c, w);
    LiveIsHarmful(g, es[0]);
  }

  lemma NewClusBound(g: Geometry, v0: View, cat0: Catalog, d: nat, newClus: nat, c: nat, w: View)
    requires g.Valid() && LinkedUnzeroed(g, v0, cat0, d, newClus, c, w)
    ensures newClus < BAD
  {
  }

  lemma BlankEntries(n: nat, blank: Sector)
    requires blank == seq(SECTOR_SIZE, _ => SPACE) && n > 0
    ensures var es := Entries(seq(n, _ => blank));
      && |es| > 0 && es[0][0] == SPACE && es[0][11] == ATTR_ARCHIVE
      && forall i {:trigger es[i]} :: 0 <= i < |es| ==> EntryCluster(es[i]) == 0x20202020
  {
    var secs: seq<Sector> := seq(n, _ => blank);
    var es := Entries(secs);
    forall i {:trigger es[i]} | 0 <= i < |es|
      ensures es[i] == seq(ENTRY_SIZE, _ => SPACE)
    {
      assert secs[i / PER_SECTOR] == blank;
      BlankSlice(blank, i % PER_SECTOR * ENTRY_SIZE);
    }
    BlankCluster(seq(ENTRY_SIZE, _ => SPACE));
  }

  lemma BlankSlice(blank: Sector, at: nat)
    requires blank == seq(SECTOR_SIZE, _ => SPACE) && at + ENTRY_SIZE <= SECTOR_SIZE
    ensures blank[at..at + ENTRY_SIZE] == seq(ENTRY_SIZE, _ => SPACE)
  {
    var slice := blank[at..at + ENTRY_SIZE];
    forall k | 0 <= k < ENTRY_SIZE
      ensures slice[k] == SPACE
    {
      assert slice[k] == blank[at + k];
    }
  }

  lemma BlankCluster(e: Entry)
    requires e == seq(ENTRY_SIZE, _ => SPACE)
    ensures EntryCluster(e) == 0x20202020
  {
    assert e[20..22] == [SPACE, SPACE] && e[26..28] == [SPACE, SPACE];
  }

  /** On the way the directory `d` read on into a cluster that was not zeroed yet. */
  ghost predicate ShowedStale(g: Geometry, v0: View, cat0: Catalog, d: nat, h0: seq<View>, h1: seq<View>) {
    exists newClus: nat, c: nat, w {:trigger LinkedUnzeroed(g, v0, cat0, d, newClus, c, w)} ::
      LinkedUnzeroed(g, v0, cat0, d, newClus, c, w) && Passed(h0, h1, w)
  }

  /** Making an entry in a directory that has to be extended is not safe at every write. */
  lemma GrowthIsUnsafe(g: Geometry, v0: View, cat0: Catalog, d: nat, newClus: nat, v: View, c: nat, h0: seq<View>, h1: seq<View>)
    requires g.Valid() && Consistent(g, v0, cat0) && Stray(g, v0, newClus, v) && d in cat0.dirs && d in cat0.chains
    requires g.IsCluster(c) && c < |v.fat| && v.fat[c] == FREE && GrowthPassed(v, cat0.chains[d], c, h0, h1)
    ensures !AllSafe(g, v0, cat0, h0, h1) && ShowedStale(g, v0, cat0, d, h0, h1)
  {
    hide Consistent, CrashSafe, IsChain, LinkedFat;
    var w1 := View(v.fat[c := EOC_MARK], v.data);
    var w2 := View(LinkedFat(v.fat, cat0.chains[d][|cat0.chains[d]| - 1], c), v.data);
    assert TwoClosed(g, v0, newClus, c, w1);
    TwoStraysNotSafe(g, v0, cat0, newClus, c, w1);
    LinkedFatFits(g, v, cat0.chains[d][|cat0.chains[d]| - 1], c);
    assert LinkedUnzeroed(g, v0, cat0, d, newClus, c, w2);
  }

  lemma LinkedFatFits(g: Geometry, v: View, last: nat, c: nat)
    requires g.Valid() && Fits(g, v) && g.IsCluster(c) && last < |v.fat|
    ensures Fits(g, View(LinkedFat(v.fat, last, c), v.data))
  {
  }
}

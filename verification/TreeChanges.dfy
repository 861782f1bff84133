/** What creating, truncating and removing files, and making directories, do to a consistent volume. */
module TreeChanges {
  import opened Bytes
  import opened Layout
  import opened Chains
  import opened Volumes
  import opened Names
  import opened LongNames
  import opened ChainData
  import opened Cells
  import opened Directories
  import opened DirAdd
  import opened Catalogs
  import opened Files
  import opened EntryChanges

  /** Files other than `gone` keep their owner, their chain, their recorded size and their bytes; directories other
      than `d` keep their entries. */
  ghost predicate Undisturbed(v: View, cat: Catalog, w: View, cat': Catalog, d: nat, gone: set<nat>) {
    && Evolves(cat, cat', gone, {})
    && (forall h {:trigger cat.owner[h]} :: h in cat.owner && h !in cat.dirs && h !in gone ==>
          Content(w, cat', h) == Content(v, cat, h))
    && (forall e {:trigger cat.dirs[e]} :: e in cat.dirs && e != d ==> e in cat'.dirs && cat'.dirs[e] == cat.dirs[e])
  }

  // ---- A new entry ----

  /** The catalog with the directory grown as the placement says. */
  function Base(g: Geometry, cat: Catalog, d: nat, p: Placement): Catalog
    requires d in cat.chains && d in cat.dirs
  {
    if p.grown == 0 then cat else Lengthened(g, cat, d, p.grown)
  }

  lemma BaseParts(g: Geometry, v: View, cat: Catalog, d: nat, p: Placement)
    requires d in cat.chains && d in cat.dirs && Placed(g, v, cat.chains[d], cat.dirs[d], p)
    ensures var base := Base(g, cat, d, p);
      && d in base.dirs && base.dirs[d] == p.cells && d in base.chains && base.chains[d] == p.ch
      && base.owner == cat.owner && base.depth == cat.depth
      && base.dirs.Keys == cat.dirs.Keys && base.chains.Keys == cat.chains.Keys
      && (forall e | e in cat.dirs && e != d :: base.dirs[e] == cat.dirs[e])
      && (forall h | h in cat.chains && h != d :: base.chains[h] == cat.chains[h])
    ensures cat.chains[d] <= p.ch && cat.dirs[d] <= p.cells
  {
    assert Base(g, cat, d, p).dirs.Keys == cat.dirs.Keys;
    assert Base(g, cat, d, p).chains.Keys == cat.chains.Keys;
  }

  lemma BaseOrderly(g: Geometry, v: View, cat: Catalog, d: nat, p: Placement, name: Name)
    requires d in cat.chains && d in cat.dirs && Placed(g, v, cat.chains[d], cat.dirs[d], p)
    requires Orderly(cat.dirs) && WellRun(p.cells) && Absent(cat.dirs[d], name)
    ensures NamesDistinct(p.cells) && Absent(p.cells, name)
    ensures Listing(p.cells) == Listing(cat.dirs[d])
  {
    hide WellRun, Fold, Listing;
    var cells := cat.dirs[d];
    assert NamesDistinct(cells);
    forall k | 0 <= k < |p.cells|
      ensures !Names83(p.cells, k, name)
      ensures p.cells[k].Entry83? ==> k < |cells| && cells[k] == p.cells[k]
    {
      assert k < |cells| ==> !Names83(cells, k, name);
    }
    ListingSame(cells, p.cells);
  }

  lemma BaseSound(g: Geometry, v: View, cat: Catalog, pend: set<nat>, d: nat, p: Placement)
    requires g.Valid() && Sound(g, v, cat, pend, {}) && d in cat.dirs && d in cat.chains
    requires Placed(g, v, cat.chains[d], cat.dirs[d], p)
    ensures Sound(g, Grown(g, v, cat.chains[d], p), Base(g, cat, d, p), pend, {})
  {
    hide Sound, Grown;
    if p.grown == 0 {
      NotGrown(g, v, cat.chains[d], p);
    } else {
      SoundGrowDir(g, v, cat, pend, {}, d, p, Grown(g, v, cat.chains[d], p));
    }
  }

  /** The catalog after an entry for the pending chain `c` was added at `p`. */
  function Entered(g: Geometry, cat: Catalog, d: nat, p: Placement, run: seq<Cell>, c: nat, sub: map<nat, seq<Cell>>): Catalog
    requires d in cat.chains && d in cat.dirs && p.at + |run| <= |p.cells| && |run| > 0
  {
    Attached(Base(g, cat, d, p), d, Splice(p.cells, p.at, run), p.at + |run| - 1, c, sub)
  }

  /** A run on free places leaves all references alone but its own. */
  lemma RunRefs(p: Placement, d: nat, name: Name, attr: Byte, c: nat, size: nat)
    requires Fitting(p, name)
    ensures var k := p.at + Parts(name);
      && SameRefs(p.cells, Splice(p.cells, p.at, Run(name, p.short, attr, c, size)), d, {Ref(d, k)})
      && !p.cells[k].Entry83?
      && Splice(p.cells, p.at, Run(name, p.short, attr, c, size))[k] == Entry83(name, p.short, attr, c, size)
      && SameBut(p.cells, Splice(p.cells, p.at, Run(name, p.short, attr, c, size)), k)
  {
    var run := Run(name, p.short, attr, c, size);
    var cells' := Splice(p.cells, p.at, run);
    forall i | 0 <= i < |cells'|
      ensures if p.at <= i < p.at + |run| then Free(p.cells[i]) && (i == p.at + Parts(name) || cells'[i].Part?)
              else cells'[i] == p.cells[i]
    {
    }
  }

  /** A volume with a new entry for a pending chain is consistent, and the directory lists the new name besides the
      old ones. */
  lemma EntrySound(g: Geometry, v: View, cat: Catalog, d: nat, p: Placement, name: Name, attr: Byte, c: nat,
                   sub: map<nat, seq<Cell>>, w: View)
    requires g.Valid() && Sound(g, v, cat, {c}, {}) && Orderly(cat.dirs) && d in cat.dirs && d in cat.chains
    requires Storable(name) && Absent(cat.dirs[d], name) && Fitting(p, name) && WellRun(p.cells)
    requires Added(g, v, cat.chains[d], cat.dirs[d], p, Run(name, p.short, attr, c, 0), w)
    requires FreshDir(g, sub, c, attr) && Orderly(sub) && c in cat.chains && c != d
    requires c in sub ==> AllMatch(Dir(v.data, cat.chains[c]), sub[c])
    ensures Consistent(g, w, Entered(g, cat, d, p, Run(name, p.short, attr, c, 0), c, sub))
    ensures Listing(Splice(p.cells, p.at, Run(name, p.short, attr, c, 0))) ==
              Listing(cat.dirs[d])[Fold(name) := Entry83(name, p.short, attr, c, 0)]
  {
    hide Sound, Grown, AllMatch, Dir, WellRun, NamesDistinct, Absent, Fitting, Attached, SameRefs, DirState, Base, Placed;
    hide Listing, SameBut, Storable;
    var run := Run(name, p.short, attr, c, 0);
    var base, cells', k := Base(g, cat, d, p), Splice(p.cells, p.at, run), p.at + Parts(name);
    BaseParts(g, v, cat, d, p);
    BaseOrderly(g, v, cat, d, p, name);
    BaseSound(g, v, cat, {c}, d, p);
    RunRefs(p, d, name, attr, c, 0);
    if c in sub {
      AddedElsewhere(g, v, cat, {c}, d, p, run, w, c);
    }
    assert Attachable(g, base, {c}, {}, d, cells', k, sub);
    SoundAttach(g, Grown(g, v, cat.chains[d], p), base, {c}, {}, d, cells', k, sub, w);
    assert {c} - {c} == {};
    RunOrderly(p, name, attr, c, 0);
    ListingPut(p.cells, cells', k);
    EnteredOrderly(base, d, cells', k, c, sub);
  }

  lemma RunOrderly(p: Placement, name: Name, attr: Byte, c: nat, size: nat)
    requires Fitting(p, name) && WellRun(p.cells) && NamesDistinct(p.cells) && Absent(p.cells, name) && Storable(name)
    ensures WellRun(Splice(p.cells, p.at, Run(name, p.short, attr, c, size)))
    ensures NamesDistinct(Splice(p.cells, p.at, Run(name, p.short, attr, c, size)))
  {
    hide WellRun, NamesDistinct, Absent;
    RunFits(p.cells, p.at, name, p.short, attr, c, size);
    NamesStayDistinct(p.cells, p.at, name, p.short, attr, c, size);
  }

  lemma EnteredOrderly(base: Catalog, d: nat, cells: seq<Cell>, k: nat, c: nat, sub: map<nat, seq<Cell>>)
    requires forall e | e in base.dirs && e != d :: WellRun(base.dirs[e]) && NamesDistinct(base.dirs[e])
    requires WellRun(cells) && NamesDistinct(cells) && Orderly(sub)
    ensures Orderly(Attached(base, d, cells, k, c, sub).dirs)
  {
    hide WellRun, NamesDistinct;
  }

  /** Clusters in use outside the directory do not notice the new entry. */
  lemma AddedFrame(g: Geometry, v: View, cat: Catalog, pend: set<nat>, d: nat, p: Placement, run: seq<Cell>, w: View)
    requires g.Valid() && Sound(g, v, cat, pend, {}) && d in cat.dirs && d in cat.chains
    requires Added(g, v, cat.chains[d], cat.dirs[d], p, run, w)
    ensures |w.data| == |v.data|
    ensures forall x {:trigger w.data[x]} :: x in cat.place && x < |v.data| && x !in cat.chains[d] ==> w.data[x] == v.data[x]
  {
    hide Homed, Linked, TreeOk, DirsOk, AllMatch, Dir, LinkedFat;
  }

  lemma AddedElsewhere(g: Geometry, v: View, cat: Catalog, pend: set<nat>, d: nat, p: Placement, run: seq<Cell>, w: View,
                       c: nat)
    requires g.Valid() && Sound(g, v, cat, pend, {}) && d in cat.dirs && d in cat.chains
    requires Added(g, v, cat.chains[d], cat.dirs[d], p, run, w)
    requires c in cat.chains && c != d
    ensures Dir(w.data, cat.chains[c]) == Dir(v.data, cat.chains[c])
  {
    hide Linked, TreeOk, DirsOk, InUse, Added, Homed;
    AddedFrame(g, v, cat, pend, d, p, run, w);
    forall i {:trigger cat.chains[c][i]} | 0 <= i < |cat.chains[c]|
      ensures cat.chains[c][i] < |v.data| && v.data[cat.chains[c][i]] == w.data[cat.chains[c][i]]
    {
      PlaceOf(g, cat.chains, cat.place, c, i);
      NotShared(g, cat.chains, cat.place, d, c, i);
    }
    ChainFrame(v.data, w.data, cat.chains[c]);
  }

  /** What adding an entry for a new chain changes in the catalog, and what it leaves. */
  lemma EnteredParts(g: Geometry, v: View, cat: Catalog, d: nat, p: Placement, run: seq<Cell>, c: nat,
                     sub: map<nat, seq<Cell>>)
    requires d in cat.chains && d in cat.dirs && Placed(g, v, cat.chains[d], cat.dirs[d], p)
    requires p.at + |run| <= |p.cells| && |run| > 0 && sub.Keys <= {c} && c != d
    ensures var cat' := Entered(g, cat, d, p, run, c, sub);
      && cat'.owner == cat.owner[c := Ref(d, p.at + |run| - 1)]
      && cat'.chains.Keys == cat.chains.Keys && cat'.chains[d] == p.ch && cat.chains[d] <= p.ch
      && (forall h | h in cat.chains && h != d :: cat'.chains[h] == cat.chains[h])
      && cat'.dirs.Keys == cat.dirs.Keys + sub.Keys && cat'.dirs[d] == Splice(p.cells, p.at, run)
      && (forall e | e in cat.dirs && e != d && e != c :: cat'.dirs[e] == cat.dirs[e])
      && cat.dirs[d] <= p.cells
  {
    hide Base, Placed;
    BaseParts(g, v, cat, d, p);
  }

  /** Adding an entry for a new chain takes nothing from the entries, files and directories there were. */
  lemma EntryEvolves(g: Geometry, v: View, cat0: Catalog, c: nat, d: nat, p: Placement, name: Name, attr: Byte,
                     sub: map<nat, seq<Cell>>)
    requires TreeOk(g, cat0, {}, {}) && d in cat0.dirs && d in cat0.chains && c !in cat0.chains
    requires Placed(g, v, cat0.chains[d], cat0.dirs[d], p) && Fitting(p, name) && sub.Keys <= {c}
    ensures Evolves(cat0, Entered(g, WithChain(cat0, c), d, p, Run(name, p.short, attr, c, 0), c, sub), {}, {})
  {
    hide Placed, EntriesOwn, Entered, Fitting, OwnersAreEntries, CommittedSize;
    var cat, run := WithChain(cat0, c), Run(name, p.short, attr, c, 0);
    EntryFits(p, name, attr, c);
    var cat' := Entered(g, cat, d, p, run, c, sub);
    EnteredParts(g, v, cat, d, p, run, c, sub);
    forall h | h in cat0.owner && h != c
      ensures CommittedSize(cat', cat0.owner[h]) == CommittedSize(cat0, cat0.owner[h])
    {
      EntryKeepsSize(g, cat0, d, p, name, attr, c, h, cat');
    }
  }

  lemma EntryKeepsSize(g: Geometry, cat0: Catalog, d: nat, p: Placement, name: Name, attr: Byte, c: nat, h: nat, cat': Catalog)
    requires TreeOk(g, cat0, {}, {}) && h in cat0.owner && d in cat0.dirs && Fitting(p, name) && cat0.dirs[d] <= p.cells
    requires c !in cat0.dirs
    requires forall e | e in cat0.dirs && e != d && e != c :: e in cat'.dirs && cat'.dirs[e] == cat0.dirs[e]
    requires d in cat'.dirs && cat'.dirs[d] == Splice(p.cells, p.at, Run(name, p.short, attr, c, 0))
    ensures CommittedSize(cat', cat0.owner[h]) == CommittedSize(cat0, cat0.owner[h])
  {
    OwnerDir(g, cat0, {}, {}, h);
    hide TreeOk, Fitting;
    if cat0.owner[h].dir == d {
      KeptEntry(p, d, name, attr, c, 0, cat0.owner[h].idx);
    }
  }

  lemma EntryFits(p: Placement, name: Name, attr: Byte, c: nat)
    requires Fitting(p, name)
    ensures p.at + |Run(name, p.short, attr, c, 0)| <= |p.cells| && |Run(name, p.short, attr, c, 0)| > 0
  {
  }

  /** The entries there were are where they were. */
  lemma KeptEntry(p: Placement, d: nat, name: Name, attr: Byte, c: nat, size: nat, i: nat)
    requires Fitting(p, name) && i < |p.cells| && p.cells[i].Entry83?
    ensures Splice(p.cells, p.at, Run(name, p.short, attr, c, size))[i] == p.cells[i]
  {
    hide SameRefs;
    RunRefs(p, d, name, attr, c, size);
  }

  lemma EntryDisturbsNothing(g: Geometry, v0: View, cat0: Catalog, c: nat, v: View, d: nat, p: Placement, name: Name,
                             attr: Byte, sub: map<nat, seq<Cell>>, w: View)
    requires g.Valid() && Sound(g, v0, cat0, {}, {}) && d in cat0.dirs && d in cat0.chains
    requires c !in cat0.chains && c !in cat0.place && Sound(g, v, WithChain(cat0, c), {c}, {})
    requires |v.data| == |v0.data| && forall x | 0 <= x < |v0.data| && x != c :: v.data[x] == v0.data[x]
    requires Added(g, v, cat0.chains[d], cat0.dirs[d], p, Run(name, p.short, attr, c, 0), w)
    requires Fitting(p, name) && sub.Keys <= {c}
    ensures Undisturbed(v0, cat0, w, Entered(g, WithChain(cat0, c), d, p, Run(name, p.short, attr, c, 0), c, sub), d, {})
  {
    hide Linked, DirsOk, InUse, DirState, Entered, Evolves, EntriesOwn, OwnersAreEntries, Content, Placed, Homed;
    hide Grown;
    var cat, run := WithChain(cat0, c), Run(name, p.short, attr, c, 0);
    var cat' := Entered(g, cat, d, p, run, c, sub);
    EntryEvolves(g, v, cat0, c, d, p, name, attr, sub);
    EnteredParts(g, v, cat, d, p, run, c, sub);
    AddedFrame(g, v, cat, {c}, d, p, run, w);
    hide Fitting, Added;
    forall h | h in cat0.owner && h !in cat0.dirs
      ensures Content(w, cat', h) == Content(v0, cat0, h)
    {
      FilesElsewhere(g, v0, cat0, d, w, cat', h);
    }
  }

  /** Nothing recorded is lost when entries stay where they are and files keep their bytes. */
  lemma KeptEntries(g: Geometry, v0: View, cat0: Catalog, d: nat, w: View, cat': Catalog)
    requires EntriesOwn(g, cat0, {})
    requires forall e | e in cat0.dirs :: e in cat'.dirs && (e != d ==> cat'.dirs[e] == cat0.dirs[e])
    requires d in cat0.dirs ==> |cat0.dirs[d]| <= |cat'.dirs[d]|
    requires d in cat0.dirs ==> forall i | 0 <= i < |cat0.dirs[d]| && cat0.dirs[d][i].Entry83? ::
               cat'.dirs[d][i] == cat0.dirs[d][i]
    requires forall h | h in cat0.owner && h !in cat0.dirs :: Content(w, cat', h) == Content(v0, cat0, h)
    ensures Keeps(v0, cat0, w, cat')
  {
    hide Content;
    forall e, i | e in cat0.dirs && 0 <= i < |cat0.dirs[e]| && cat0.dirs[e][i].Entry83?
      ensures RefOk(g, cat0, e, i)
    {
    }
  }

  /** The cluster was allocated and nothing else happened, but for what its sectors hold. */
  ghost predicate Stray(g: Geometry, v0: View, c: nat, v: View) {
    && g.IsCluster(c) && c < |v0.fat| && v0.fat[c] == FREE && Fits(g, v0) && Fits(g, v)
    && v.fat == v0.fat[c := EOC_MARK]
    && (forall x {:trigger v.data[x]} :: 0 <= x < |v0.data| && x != c ==> v.data[x] == v0.data[x])
  }

  /** A cluster allocated for an entry that is not there yet. */
  lemma StrayIsSafe(g: Geometry, v0: View, cat0: Catalog, c: nat, w: View)
    requires g.Valid() && Consistent(g, v0, cat0) && Stray(g, v0, c, w)
    ensures Sound(g, w, WithChain(cat0, c), {c}, {})
    ensures c !in cat0.place && c !in cat0.chains && c !in cat0.owner && c !in cat0.dirs
    ensures CrashSafe(g, v0, cat0, w)
  {
    hide Homed, Linked, InUse, TreeOk, DirsOk, Keeps, Orderly;
    SoundAlloc(g, v0, cat0, {}, {}, c, w);
    KeepsStart(v0, cat0);
    StrayKeeps(g, v0, cat0, v0, cat0, c, w);
    assert {} + {c} == {c};
  }

  lemma HeadsAreChains(g: Geometry, chains: ChainMap, place: Places)
    requires Homed(g, chains, place)
    ensures forall x | x in place :: place[x].head in chains
  {
  }

  /** An allocation that links the new cluster behind nothing. */
  lemma AllocStray(g: Geometry, v0: View, c: nat, v: View)
    requires g.Valid() && Fits(g, v0) && Fits(g, v) && g.IsCluster(c) && v0.fat[c] == FREE
    requires v.fat == LinkedFat(v0.fat, 0, c) && v.data == v0.data[c := ZeroSectors(g.secPerClus)]
    ensures Stray(g, v0, c, v)
  {
  }

  /** The cluster is given back when there was no room for the entry. */
  lemma StrayFreed(g: Geometry, v0: View, cat0: Catalog, c: nat, v: View, w: View)
    requires g.Valid() && Consistent(g, v0, cat0) && c !in cat0.chains && c !in cat0.place
    requires Sound(g, v, WithChain(cat0, c), {c}, {})
    requires |v.data| == |v0.data| && forall x | 0 <= x < |v0.data| && x != c :: v.data[x] == v0.data[x]
    requires w.fat == Cleared(v.fat, [c]) && w.data == v.data
    ensures Consistent(g, w, cat0)
    ensures forall h | h in cat0.chains :: Content(w, cat0, h) == Content(v0, cat0, h)
  {
    hide Linked, InUse, TreeOk, DirsOk, Content, Orderly, Homed, Cleared;
    var cat := WithChain(cat0, c);
    SoundFree(g, v, cat, {c}, {}, c, w);
    HeadsAreChains(g, cat0.chains, cat0.place);
    assert Without(cat, c).place == cat0.place && Without(cat, c).chains == cat0.chains;
    assert {c} - {c} == {};
    forall h | h in cat0.chains
      ensures Content(w, cat0, h) == Content(v0, cat0, h)
    {
      ContentElsewhere(g, v0, cat0, h, c, w);
    }
  }

  /** A front part of a run, still without its short entry, refers to nothing. */
  lemma FrontRefs(p: Placement, d: nat, name: Name, attr: Byte, c: nat, n: nat)
    requires Fitting(p, name) && n <= Parts(name)
    ensures p.at + n <= |p.cells|
    ensures SameRefs(p.cells, Splice(p.cells, p.at, Run(name, p.short, attr, c, 0)[..n]), d, {})
    ensures forall i | 0 <= i < |p.cells| && p.cells[i].Entry83? ::
              Splice(p.cells, p.at, Run(name, p.short, attr, c, 0)[..n])[i] == p.cells[i]
  {
    var front := Run(name, p.short, attr, c, 0)[..n];
    var cells' := Splice(p.cells, p.at, front);
    forall i | 0 <= i < |cells'|
      ensures if p.at <= i < p.at + n then Free(p.cells[i]) && cells'[i].Part? else cells'[i] == p.cells[i]
    {
    }
  }

  /** What holds before the run of a new entry for the chain `c` is written in a directory that need not grow. */
  ghost predicate AboutToEnter(g: Geometry, v0: View, cat0: Catalog, c: nat, v: View, d: nat, p: Placement, name: Name,
                               attr: Byte, sub: map<nat, seq<Cell>>) {
    && g.Valid() && Consistent(g, v0, cat0) && d in cat0.dirs && d in cat0.chains
    && Stray(g, v0, c, v)
    && Storable(name) && Absent(cat0.dirs[d], name) && Fitting(p, name) && WellRun(p.cells)
    && FreshDir(g, sub, c, attr) && Orderly(sub) && (c in sub ==> AllMatch(Dir(v.data, [c]), sub[c]))
  }

  /** A power cut while the records of the name are being written, before the short entry. */
  lemma FrontIsSafe(g: Geometry, v0: View, cat0: Catalog, c: nat, v: View, d: nat, p: Placement, name: Name,
                    attr: Byte, sub: map<nat, seq<Cell>>, n: nat, w: View)
    requires AboutToEnter(g, v0, cat0, c, v, d, p, name, attr, sub)
    requires p.ch == cat0.chains[d] && p.cells == cat0.dirs[d] && n <= Parts(name)
    requires p.at + n <= |p.cells|
    requires DirState(g, v, p.ch, Splice(p.cells, p.at, Run(name, p.short, attr, c, 0)[..n]), w)
    ensures CrashSafe(g, v0, cat0, w)
  {
    hide Homed, Linked, InUse, DirsOk, Keeps, OwnersAreEntries, EntriesOwn, Content, FreshDir, Fitting, Absent, WellRun;
    hide Dir, AllMatch, SameRefs, Orderly, Run, Shape;
    var cat, cells' := WithChain(cat0, c), Splice(p.cells, p.at, Run(name, p.short, attr, c, 0)[..n]);
    StrayIsSafe(g, v0, cat0, c, v);
    FrontRefs(p, d, name, attr, c, n);
    SoundRewrite(g, v, cat, {c}, {}, d, cells', w);
    var cat' := WithCells(cat, d, cells');
    OwnersKnown(g, cat0);
    forall h | h in cat0.owner && h !in cat0.dirs
      ensures Content(w, cat', h) == Content(v0, cat0, h)
    {
      FilesElsewhere(g, v0, cat0, d, w, cat', h);
    }
    KeptEntries(g, v0, cat0, d, w, cat');
  }

  /** A power cut while the run of a new entry is being written: the entry is there when all of it is. */
  lemma EnteringIsSafe(g: Geometry, v0: View, cat0: Catalog, c: nat, v: View, d: nat, p: Placement, name: Name,
                       attr: Byte, sub: map<nat, seq<Cell>>, w: View)
    requires AboutToEnter(g, v0, cat0, c, v, d, p, name, attr, sub)
    requires Placed(g, v, cat0.chains[d], cat0.dirs[d], p) && p.grown == 0
    requires p.at + Parts(name) + 1 <= |p.cells|
    requires PartlyWritten(g, v, p.ch, p.cells, p.at, Run(name, p.short, attr, c, 0), w)
    ensures CrashSafe(g, v0, cat0, w)
  {
    hide Consistent, Sound, Run, DirState, Splice, FreshDir, Orderly, Fitting, Absent, WellRun, AllMatch, Dir;
    var run := Run(name, p.short, attr, c, 0);
    var n :| 0 <= n <= |run| && DirState(g, v, p.ch, Splice(p.cells, p.at, run[..n]), w);
    if n <= Parts(name) {
      FrontIsSafe(g, v0, cat0, c, v, d, p, name, attr, sub, n, w);
    } else {
      assert run[..n] == run;
      NotGrown(g, v, cat0.chains[d], p);
      EnteredIsSafe(g, v0, cat0, c, v, d, p, name, attr, sub, w);
    }
  }

  lemma EnteredIsSafe(g: Geometry, v0: View, cat0: Catalog, c: nat, v: View, d: nat, p: Placement, name: Name,
                      attr: Byte, sub: map<nat, seq<Cell>>, w: View)
    requires AboutToEnter(g, v0, cat0, c, v, d, p, name, attr, sub)
    requires Added(g, v, cat0.chains[d], cat0.dirs[d], p, Run(name, p.short, attr, c, 0), w)
    ensures CrashSafe(g, v0, cat0, w)
    ensures Consistent(g, w, Entered(g, WithChain(cat0, c), d, p, Run(name, p.short, attr, c, 0), c, sub))
    ensures Undisturbed(v0, cat0, w, Entered(g, WithChain(cat0, c), d, p, Run(name, p.short, attr, c, 0), c, sub), d, {})
    ensures Keeps(v0, cat0, w, Entered(g, WithChain(cat0, c), d, p, Run(name, p.short, attr, c, 0), c, sub))
    ensures Listing(Splice(p.cells, p.at, Run(name, p.short, attr, c, 0))) ==
              Listing(cat0.dirs[d])[Fold(name) := Entry83(name, p.short, attr, c, 0)]
  {
    hide Homed, Linked, InUse, DirsOk, Keeps, OwnersAreEntries, Content, Absent, WellRun, DirState, Grown, Placed;
    hide Dir, AllMatch, Orderly, Run, Entered, Evolves, Listing, Fold, Shape;
    var run := Run(name, p.short, attr, c, 0);
    EntryFits(p, name, attr, c);
    var cat' := Entered(g, WithChain(cat0, c), d, p, run, c, sub);
    StrayIsSafe(g, v0, cat0, c, v);
    EntrySound(g, v, WithChain(cat0, c), d, p, name, attr, c, sub, w);
    EntryDisturbsNothing(g, v0, cat0, c, v, d, p, name, attr, sub, w);
    EnteredParts(g, v, WithChain(cat0, c), d, p, run, c, sub);
    hide FreshDir;
    forall i | 0 <= i < |cat0.dirs[d]| && cat0.dirs[d][i].Entry83?
      ensures cat'.dirs[d][i] == cat0.dirs[d][i]
    {
      KeptEntry(p, d, name, attr, c, 0, i);
    }
    hide Fitting, EntriesOwn;
    KeptEntries(g, v0, cat0, d, w, cat');
  }

  /** A directory of a sound volume, ready to be walked. */
  lemma DirReady(g: Geometry, v: View, cat: Catalog, pend: set<nat>, hole: set<Ref>, d: nat)
    requires Sound(g, v, cat, pend, hole) && d in cat.dirs && Orderly(cat.dirs)
    ensures d in cat.chains && IsChain(g, v.fat, cat.chains[d]) && cat.chains[d][0] == d
    ensures AllMatch(Dir(v.data, cat.chains[d]), cat.dirs[d]) && WellRun(cat.dirs[d]) && NamesDistinct(cat.dirs[d])
  {
    hide AllMatch, Dir, WellRun, NamesDistinct, IsChain, TreeOk;
    ChainOf(g, v.fat, cat, d);
  }

  /** Freeing the one-cluster chain of a stray cluster. */
  lemma StrayFreeing(g: Geometry, v0: View, cat0: Catalog, c: nat, v: View, w: View)
    requires g.Valid() && Consistent(g, v0, cat0) && Stray(g, v0, c, v)
    requires w.data == v.data && PartlyFreed(v.fat, [c], w.fat)
    ensures CrashSafe(g, v0, cat0, w)
  {
    hide TableOk, TreeOk, DirsOk, Keeps, Orderly, Content, CrashSafe, Cleared;
    StrayIsSafe(g, v0, cat0, c, v);
    StrayCleared(v0.fat, c);
    var k :| 0 <= k <= 1 && w.fat == Cleared(v.fat, [c][..k]);
    assert [c][..1] == [c];
    if k == 0 {
      NothingCleared(v.fat);
      assert w == v;
    } else {
      StrayFreed(g, v0, cat0, c, v, w);
      StrayGone(g, v0, cat0, w);
    }
  }

  lemma StrayChain(g: Geometry, v0: View, c: nat, v: View)
    requires g.Valid() && Stray(g, v0, c, v)
    ensures ChainFrom(g, v.fat, [c], c) && g.IsCluster(c) && c < U32
  {
  }

  lemma StrayCleared(fat: seq<nat>, c: nat)
    requires c < |fat| && fat[c] == FREE
    ensures Cleared(fat[c := EOC_MARK], [c]) == fat
  {
  }

  lemma NothingCleared(fat: seq<nat>)
    ensures Cleared(fat, []) == fat
  {
  }

  lemma StrayGone(g: Geometry, v0: View, cat0: Catalog, w: View)
    requires Consistent(g, v0, cat0) && Consistent(g, w, cat0)
    requires forall h | h in cat0.chains :: Content(w, cat0, h) == Content(v0, cat0, h)
    ensures CrashSafe(g, v0, cat0, w)
  {
    hide TableOk, DirsOk, Content, Orderly, Keeps;
    OwnersKnown(g, cat0);
    KeptEntries(g, v0, cat0, g.rootCluster, w, cat0);
  }

  /** What a new entry `e` for the new chain `c` is to a volume: the directory `d` lists it besides its old entries, and
      no other file or directory is disturbed. */
  ghost predicate EntryMade(v0: View, cat0: Catalog, w: View, cat': Catalog, d: nat, k: nat, e: Cell, sub: map<nat, seq<Cell>>) {
    && e.Entry83?
    && Undisturbed(v0, cat0, w, cat', d, {}) && Keeps(v0, cat0, w, cat')
    && d in cat0.dirs && d in cat'.dirs && d in cat'.chains
    && Listing(cat'.dirs[d]) == Listing(cat0.dirs[d])[Fold(e.name) := e]
    && (ShortsDistinct(cat0.dirs[d]) && |Shorts(cat0.dirs[d])| < 9999 ==> ShortsDistinct(cat'.dirs[d]))
    && k < |cat'.dirs[d]| && cat'.dirs[d][k] == e
    && e.clus !in cat0.owner && e.clus !in cat0.dirs && cat'.owner == cat0.owner[e.clus := Ref(d, k)]
    && e.clus in cat'.chains && cat'.chains[e.clus] == [e.clus]
    && cat'.dirs.Keys == cat0.dirs.Keys + sub.Keys && (e.clus in sub ==> cat'.dirs[e.clus] == sub[e.clus])
  }

  /** The entry for a stray cluster. */
  lemma EntryIsMade(g: Geometry, v0: View, cat0: Catalog, c: nat, v: View, d: nat, p: Placement, name: Name,
                    attr: Byte, sub: map<nat, seq<Cell>>, w: View)
    requires AboutToEnter(g, v0, cat0, c, v, d, p, name, attr, sub)
    requires Added(g, v, cat0.chains[d], cat0.dirs[d], p, Run(name, p.short, attr, c, 0), w)
    requires |Shorts(cat0.dirs[d])| < 9999 ==> p.short !in Shorts(cat0.dirs[d])
    ensures Consistent(g, w, Entered(g, WithChain(cat0, c), d, p, Run(name, p.short, attr, c, 0), c, sub))
    ensures EntryMade(v0, cat0, w, Entered(g, WithChain(cat0, c), d, p, Run(name, p.short, attr, c, 0), c, sub), d,
                      p.at + Parts(name), Entry83(name, p.short, attr, c, 0), sub)
  {
    hide TableOk, DirsOk, Keeps, EntriesOwn, OwnersAreEntries, Absent, WellRun, DirState, Grown, Placed, FreshDir, Fitting;
    hide Dir, AllMatch, Orderly, Entered, Undisturbed, Listing, Fold, Content, ShortsDistinct, Shorts, SameRefs, SameBut;
    hide Storable, CrashSafe, Sound, Stray, Evolves;
    var run := Run(name, p.short, attr, c, 0);
    EntryFits(p, name, attr, c);
    var cat' := Entered(g, WithChain(cat0, c), d, p, run, c, sub);
    StrayIsSafe(g, v0, cat0, c, v);
    EnteredIsSafe(g, v0, cat0, c, v, d, p, name, attr, sub, w);
    SubKeys(g, sub, c, attr);
    EnteredParts(g, v, WithChain(cat0, c), d, p, run, c, sub);
    RunRefs(p, d, name, attr, c, 0);
    SubCells(g, v, WithChain(cat0, c), d, p, run, c, sub);
    EntryShorts(g, v, cat0.chains[d], cat0.dirs[d], p, name, attr, c);
  }

  lemma SubKeys(g: Geometry, sub: map<nat, seq<Cell>>, c: nat, attr: Byte)
    requires FreshDir(g, sub, c, attr)
    ensures sub.Keys <= {c}
  {
  }

  /** Short names stay pairwise distinct. */
  lemma EntryShorts(g: Geometry, v: View, ch: seq<nat>, cells: seq<Cell>, p: Placement, name: Name, attr: Byte, c: nat)
    requires Placed(g, v, ch, cells, p) && Absent(cells, name) && Fitting(p, name)
    requires |Shorts(cells)| < 9999 ==> p.short !in Shorts(cells)
    ensures p.at + |Run(name, p.short, attr, c, 0)| <= |p.cells|
    ensures ShortsDistinct(cells) && |Shorts(cells)| < 9999 ==>
              ShortsDistinct(Splice(p.cells, p.at, Run(name, p.short, attr, c, 0)))
  {
    hide Placed, Absent, ShortsDistinct, Shorts;
    PlacedShorts(g, v, ch, cells, p);
    AbsentWhenPlaced(g, v, ch, cells, p, name);
    NamesStayDistinct(p.cells, p.at, name, p.short, attr, c, 0);
  }

  lemma SubCells(g: Geometry, v: View, cat: Catalog, d: nat, p: Placement, run: seq<Cell>, c: nat, sub: map<nat, seq<Cell>>)
    requires d in cat.chains && d in cat.dirs && p.at + |run| <= |p.cells| && |run| > 0
    ensures c in sub ==> c in Entered(g, cat, d, p, run, c, sub).dirs && Entered(g, cat, d, p, run, c, sub).dirs[c] == sub[c]
  {
    hide Base;
  }

  lemma PlacedShorts(g: Geometry, v: View, ch: seq<nat>, cells: seq<Cell>, p: Placement)
    requires Placed(g, v, ch, cells, p)
    ensures Shorts(p.cells) == Shorts(cells) && (ShortsDistinct(cells) ==> ShortsDistinct(p.cells))
  {
    forall k | 0 <= k < |p.cells|
      ensures if k < |cells| then p.cells[k] == cells[k] else p.cells[k] == Unused
    {
    }
    forall s
      ensures s in Shorts(p.cells) <==> s in Shorts(cells)
    {
      if s in Shorts(cells) {
        var k :| 0 <= k < |cells| && cells[k].Entry83? && cells[k].short == s;
        assert p.cells[k] == cells[k];
      }
    }
  }

  lemma AbsentWhenPlaced(g: Geometry, v: View, ch: seq<nat>, cells: seq<Cell>, p: Placement, name: Name)
    requires Placed(g, v, ch, cells, p) && Absent(cells, name)
    ensures Absent(p.cells, name)
  {
    forall k | 0 <= k < |p.cells|
      ensures !Names83(p.cells, k, name)
    {
      assert k < |cells| ==> !Names83(cells, k, name);
    }
  }

  lemma EnteredWhere(g: Geometry, v: View, cat: Catalog, c: nat, d: nat, p: Placement, name: Name, attr: Byte,
                     sub: map<nat, seq<Cell>>)
    requires d in cat.chains && d in cat.dirs && Placed(g, v, cat.chains[d], cat.dirs[d], p) && c != d
    requires Fitting(p, name) && FreshDir(g, sub, c, attr)
    ensures p.at + |Run(name, p.short, attr, c, 0)| <= |p.cells|
    ensures p.grown == 0 ==> p.at + Parts(name) + 1 <= |cat.dirs[d]|
    ensures var cat' := Entered(g, WithChain(cat, c), d, p, Run(name, p.short, attr, c, 0), c, sub);
      d in cat'.chains && cat'.chains[d] == p.ch && (p.ch == cat.chains[d] ==> p.grown == 0)
  {
    EntryFits(p, name, attr, c);
    EnteredParts(g, v, WithChain(cat, c), d, p, Run(name, p.short, attr, c, 0), c, sub);
  }

  lemma EnteringWasSafe(g: Geometry, v0: View, cat0: Catalog, c: nat, v: View, d: nat, p: Placement, name: Name,
                        attr: Byte, sub: map<nat, seq<Cell>>, h0: seq<View>, h1: seq<View>)
    requires AboutToEnter(g, v0, cat0, c, v, d, p, name, attr, sub)
    requires Placed(g, v, cat0.chains[d], cat0.dirs[d], p) && p.grown == 0
    requires p.at + Parts(name) + 1 <= |cat0.dirs[d]| && h0 <= h1
    requires forall i {:trigger h1[i]} :: |h0| <= i < |h1| ==>
               PartlyWritten(g, v, cat0.chains[d], cat0.dirs[d], p.at, Run(name, p.short, attr, c, 0), h1[i])
    ensures forall i {:trigger h1[i]} :: |h0| <= i < |h1| ==> CrashSafe(g, v0, cat0, h1[i])
  {
    hide Consistent, Stray, FreshDir, Orderly, Fitting, Absent, WellRun, AllMatch, Dir, CrashSafe, PartlyWritten, Run;
    forall i {:trigger h1[i]} | |h0| <= i < |h1|
      ensures CrashSafe(g, v0, cat0, h1[i])
    {
      EnteringIsSafe(g, v0, cat0, c, v, d, p, name, attr, sub, h1[i]);
    }
  }

  /** The stray cluster given back, and every write on the way. */
  lemma StrayReleased(g: Geometry, v0: View, cat0: Catalog, c: nat, v: View, w: View, h0: seq<View>, h1: seq<View>)
    requires g.Valid() && Consistent(g, v0, cat0) && Stray(g, v0, c, v) && h0 <= h1
    requires w.fat == Cleared(v.fat, [c]) && w.data == v.data
    requires forall i {:trigger h1[i]} :: |h0| <= i < |h1| ==> h1[i].data == v.data && PartlyFreed(v.fat, [c], h1[i].fat)
    ensures Consistent(g, w, cat0) && w.fat == v0.fat
    ensures forall h | h in cat0.chains :: Content(w, cat0, h) == Content(v0, cat0, h)
    ensures forall i {:trigger h1[i]} :: |h0| <= i < |h1| ==> CrashSafe(g, v0, cat0, h1[i])
  {
    hide TableOk, TreeOk, DirsOk, Orderly, Content, CrashSafe, Cleared;
    StrayIsSafe(g, v0, cat0, c, v);
    StrayCleared(v0.fat, c);
    StrayFreed(g, v0, cat0, c, v, w);
    forall i {:trigger h1[i]} | |h0| <= i < |h1|
      ensures CrashSafe(g, v0, cat0, h1[i])
    {
      StrayFreeing(g, v0, cat0, c, v, h1[i]);
    }
  }

  // ---- An entry that loses its chain ----

  /** The catalog without the chain `h` and its owner. */
  function Unlinked(cat: Catalog, h: nat): Catalog
    requires h in cat.chains
  {
    Without(Detached(cat, h), h)
  }

  /** The chain of a file's entry was freed; the entry still names it. */
  lemma FreedSound(g: Geometry, v: View, cat: Catalog, d: nat, k: nat, w: View)
    requires g.Valid() && Consistent(g, v, cat) && d in cat.dirs && k < |cat.dirs[d]|
    requires cat.dirs[d][k].Entry83? && cat.dirs[d][k].attr == ATTR_ARCHIVE
    ensures var h := cat.dirs[d][k].clus;
      && h in cat.owner && cat.owner[h] == Ref(d, k) && h in cat.chains && h !in cat.dirs && g.IsCluster(h)
      && ChainFrom(g, v.fat, cat.chains[h], h)
      && (w.fat == Cleared(v.fat, cat.chains[h]) && w.data == v.data ==>
            Sound(g, w, Unlinked(cat, h), {}, {Ref(d, k)}))
  {
    hide Homed, Linked, InUse, OwnersAreEntries, DirsOk, Orderly, Cleared, IsChain;
    var h := cat.dirs[d][k].clus;
    assert RefOk(g, cat, d, k);
    ChainOf(g, v.fat, cat, h);
    SoundDetach(g, v, cat, h);
    if w.fat == Cleared(v.fat, cat.chains[h]) && w.data == v.data {
      SoundFree(g, v, Detached(cat, h), {h}, {Ref(d, k)}, h, w);
      assert {h} - {h} == {};
    }
  }

  /** On a safe state every entry there was leads to a cluster in use. */
  lemma SafeEntriesLinked(g: Geometry, v: View, cat: Catalog, d: nat, k: nat, w: View)
    requires CrashSafe(g, v, cat, w)
    requires d in cat.dirs && k < |cat.dirs[d]| && cat.dirs[d][k].Entry83? && cat.dirs[d][k].clus < |w.fat|
    ensures w.fat[cat.dirs[d][k].clus] != FREE
  {
    hide Sound, Keeps;
    var cat', pend :| Sound(g, w, cat', pend, {}) && Keeps(v, cat, w, cat');
    SafeStateLinks(g, v, cat, d, k, w, cat', pend);
  }

  lemma SafeStateLinks(g: Geometry, v: View, cat: Catalog, d: nat, k: nat, w: View, cat': Catalog, pend: set<nat>)
    requires Sound(g, w, cat', pend, {}) && Keeps(v, cat, w, cat')
    requires d in cat.dirs && k < |cat.dirs[d]| && cat.dirs[d][k].Entry83? && cat.dirs[d][k].clus < |w.fat|
    ensures w.fat[cat.dirs[d][k].clus] != FREE
  {
    hide DirsOk, Linked, OwnersAreEntries;
    var h := cat.dirs[d][k].clus;
    assert cat'.dirs[d][k].clus == h;
    assert RefOk(g, cat', d, k);
    PlaceOf(g, cat'.chains, cat'.place, h, 0);
  }

  /** A cell changed in place. */
  lemma StoredCell(g: Geometry, v: View, ch: seq<nat>, cells: seq<Cell>, k: nat, e: Entry, cell: Cell)
    requires g.Valid() && Fits(g, v) && IsChain(g, v.fat, ch) && AllMatch(Dir(v.data, ch), cells)
    requires k < |cells| && Matches(e, cell)
    ensures k < PER_SECTOR * Mul(|ch|, g.secPerClus)
    ensures DirState(g, v, ch, cells[k := cell], StoredEntry(g, v, ch, k, e))
  {
    hide Mul, Matches, Dir, StoredEntry, IsChain;
    ChainCovered(g, v, ch);
    StoredEntryEffect(g, v, ch, k, e);
    AllMatchUpdate(Dir(v.data, ch), cells, k, e, cell);
  }

  /** The catalog after the entry got the new, empty chain `c` in place of its old one. */
  function Renewed(cat: Catalog, d: nat, k: nat, c: nat): Catalog
    requires d in cat.dirs && k < |cat.dirs[d]| && cat.dirs[d][k].Entry83? && cat.dirs[d][k].clus in cat.chains
  {
    Attached(WithChain(Unlinked(cat, cat.dirs[d][k].clus), c), d, Retargeted(cat.dirs[d], k, c, 0), k, c, map[])
  }

  lemma RenewedSound(g: Geometry, v: View, cat: Catalog, d: nat, k: nat, c: nat, v1: View, v2: View, w: View)
    requires g.Valid() && Consistent(g, v, cat) && d in cat.dirs && k < |cat.dirs[d]|
    requires cat.dirs[d][k].Entry83? && cat.dirs[d][k].attr == ATTR_ARCHIVE && cat.dirs[d][k].clus in cat.chains
    requires v1.fat == Cleared(v.fat, cat.chains[cat.dirs[d][k].clus]) && v1.data == v.data && Stray(g, v1, c, v2)
    requires d in cat.chains && DirState(g, v2, cat.chains[d], Retargeted(cat.dirs[d], k, c, 0), w)
    ensures Consistent(g, w, Renewed(cat, d, k, c))
    ensures Listing(Renewed(cat, d, k, c).dirs[d]) ==
              Listing(cat.dirs[d])[Fold(cat.dirs[d][k].name) := cat.dirs[d][k].(clus := c, size := 0)]
  {
    hide Homed, Linked, InUse, TreeOk, AllMatch, Dir, Cleared, DirsOk, ChainFrom;
    hide Listing, WellRun, NamesDistinct, Fold, DirState, SameRefs;
    var h, cells := cat.dirs[d][k].clus, cat.dirs[d];
    FreedSound(g, v, cat, d, k, v1);
    var cat1 := Unlinked(cat, h);
    SoundAlloc(g, v1, cat1, {}, {Ref(d, k)}, c, v2);
    assert {} + {c} == {c};
    var cat2 := WithChain(cat1, c);
    HeadIsCluster(g, v, cat, d);
    assert cat2.chains[d] == cat.chains[d];
    RetargetedFine(cells, k, c, 0);
    RetargetedRefs(cells, d, k, c, 0);
    SoundAttach(g, v2, cat2, {c}, {Ref(d, k)}, d, Retargeted(cells, k, c, 0), k, map[], w);
    assert {c} - {c} == {};
    EnteredOrderly(cat2, d, Retargeted(cells, k, c, 0), k, c, map[]);
  }

  lemma RetargetedRefs(cells: seq<Cell>, d: nat, k: nat, c: nat, n: nat)
    requires k < |cells| && cells[k].Entry83?
    ensures SameRefs(cells, Retargeted(cells, k, c, n), d, {Ref(d, k)})
  {
  }

  lemma HeadIsCluster(g: Geometry, v: View, cat: Catalog, d: nat)
    requires Sound(g, v, cat, {}, {}) && d in cat.dirs
    ensures d in cat.chains && g.IsCluster(d)
  {
    ChainOf(g, v.fat, cat, d);
  }

  /** What renewing changes in the catalog, and what it leaves. */
  lemma RenewedParts(cat: Catalog, d: nat, k: nat, c: nat)
    requires d in cat.dirs && k < |cat.dirs[d]| && cat.dirs[d][k].Entry83? && cat.dirs[d][k].clus in cat.chains
    ensures var h, cat' := cat.dirs[d][k].clus, Renewed(cat, d, k, c);
      && cat'.owner == (cat.owner - {h})[c := Ref(d, k)]
      && cat'.dirs == cat.dirs[d := Retargeted(cat.dirs[d], k, c, 0)]
      && cat'.chains == (cat.chains - {h})[c := [c]]
  {
  }

  /** Every other file and directory is as it was after an entry got a new chain. */
  lemma RenewedDisturbsNothing(g: Geometry, v: View, cat: Catalog, d: nat, k: nat, c: nat, v1: View, v2: View, w: View)
    requires g.Valid() && Consistent(g, v, cat) && d in cat.dirs && k < |cat.dirs[d]|
    requires cat.dirs[d][k].Entry83? && cat.dirs[d][k].attr == ATTR_ARCHIVE && cat.dirs[d][k].clus in cat.chains
    requires v1.fat == Cleared(v.fat, cat.chains[cat.dirs[d][k].clus]) && v1.data == v.data && Stray(g, v1, c, v2)
    requires d in cat.chains && DirState(g, v2, cat.chains[d], Retargeted(cat.dirs[d], k, c, 0), w)
    ensures Undisturbed(v, cat, w, Renewed(cat, d, k, c), d, {cat.dirs[d][k].clus})
    ensures c in cat.owner ==> c == cat.dirs[d][k].clus
    ensures c !in cat.dirs && cat.dirs[d][k].clus !in cat.dirs
  {
    hide Homed, Linked, InUse, AllMatch, Dir, Cleared, DirsOk, Content, EntriesOwn, OwnersAreEntries, Orderly, CommittedSize;
    hide Renewed, ChainFrom, Unlinked, Retargeted, Cleared;
    var h, cat' := cat.dirs[d][k].clus, Renewed(cat, d, k, c);
    FreedSound(g, v, cat, d, k, v1);
    SoundAlloc(g, v1, Unlinked(cat, h), {}, {Ref(d, k)}, c, v2);
    RenewedParts(cat, d, k, c);
    forall f | f in cat.owner && f !in cat.dirs && f != h
      ensures f in cat.chains && f != c
      ensures Content(w, cat', f) == Content(v, cat, f)
    {
      StillInUse(g, v, cat, h, f);
      OtherContent(g, v, cat, d, h, w, cat', f);
    }
    DirsNotFreed(g, v, cat, h, c);
    RenewedEvolves(g, cat, d, k, c, cat');
  }

  lemma RenewedEvolves(g: Geometry, cat: Catalog, d: nat, k: nat, c: nat, cat': Catalog)
    requires TreeOk(g, cat, {}, {}) && d in cat.dirs && k < |cat.dirs[d]| && cat.dirs[d][k].Entry83?
    requires var h := cat.dirs[d][k].clus;
      && cat'.owner == (cat.owner - {h})[c := Ref(d, k)]
      && cat'.dirs == cat.dirs[d := Retargeted(cat.dirs[d], k, c, 0)]
      && cat'.chains == (cat.chains - {h})[c := [c]]
      && h !in cat.dirs && (forall f | f in cat.owner && f !in cat.dirs && f != h :: f in cat.chains && f != c)
      && (forall e | e in cat.dirs :: e in cat.chains && e != c)
    ensures Evolves(cat, cat', {cat.dirs[d][k].clus}, {})
  {
    hide TreeOk, CommittedSize, Retargeted;
    forall f | f in cat.owner && f !in cat.dirs && f != cat.dirs[d][k].clus
      ensures CommittedSize(cat', cat.owner[f]) == CommittedSize(cat, cat.owner[f])
    {
      OtherSize(g, cat, d, k, c, f, cat');
    }
  }

  /** Directories keep their chains when a file's chain is freed and its clusters go to another one. */
  lemma DirsNotFreed(g: Geometry, v: View, cat: Catalog, h: nat, c: nat)
    requires Sound(g, v, cat, {}, {}) && h in cat.chains && h !in cat.dirs && c !in Unlinked(cat, h).place
    ensures forall e | e in cat.dirs :: e in cat.chains && e != h && e != c
  {
    hide Linked, InUse, DirsOk, EntriesOwn, OwnersAreEntries;
    forall e | e in cat.dirs
      ensures e in cat.chains && e != c
    {
      PlaceOf(g, cat.chains, cat.place, e, 0);
    }
  }

  lemma OtherSize(g: Geometry, cat: Catalog, d: nat, k: nat, c: nat, f: nat, cat': Catalog)
    requires TreeOk(g, cat, {}, {}) && d in cat.dirs && k < |cat.dirs[d]| && cat.dirs[d][k].Entry83?
    requires cat'.dirs == cat.dirs[d := Retargeted(cat.dirs[d], k, c, 0)]
    requires f in cat.owner && cat.dirs[d][k].clus != f
    ensures CommittedSize(cat', cat.owner[f]) == CommittedSize(cat, cat.owner[f])
  {
    OwnerDir(g, cat, {}, {}, f);
    hide TreeOk;
  }

  lemma StillPlaced(g: Geometry, cat: Catalog, h: nat, f: nat, i: nat)
    requires Homed(g, cat.chains, cat.place) && h in cat.chains && f in cat.chains && f != h && i < |cat.chains[f]|
    ensures cat.chains[f][i] in Unlinked(cat, h).place
  {
  }

  lemma StillInUse(g: Geometry, v: View, cat: Catalog, h: nat, f: nat)
    requires Sound(g, v, cat, {}, {}) && h in cat.chains && f in cat.owner && f != h
    ensures f in cat.chains && f in Unlinked(cat, h).place
  {
    hide Linked, InUse, DirsOk, EntriesOwn, OwnersAreEntries, Unlinked;
    OwnersKnown(g, cat);
    StillPlaced(g, cat, h, f, 0);
  }

  /** Files other than the one whose chain was freed read the same, as long as no cluster in use changed but those of
      one directory. */
  lemma OtherContent(g: Geometry, v: View, cat: Catalog, d: nat, h: nat, w: View, cat': Catalog, f: nat)
    requires Sound(g, v, cat, {}, {}) && d in cat.dirs && d in cat.chains && h in cat.chains && h != f
    requires |w.data| == |v.data|
    requires forall x {:trigger w.data[x]} :: x in Unlinked(cat, h).place && x < |v.data| && x !in cat.chains[d] ==>
               w.data[x] == v.data[x]
    requires f in cat.owner && f !in cat.dirs
    requires f in cat.chains && f in cat'.chains ==> cat'.chains[f] == cat.chains[f]
    ensures f in cat.chains && (f in cat'.chains ==> Content(w, cat', f) == Content(v, cat, f))
  {
    hide Linked, InUse, DirsOk, FlatBytes, EntriesOwn, OwnersAreEntries, Unlinked;
    OwnersKnown(g, cat);
    hide TreeOk;
    forall i {:trigger cat.chains[f][i]} | 0 <= i < |cat.chains[f]|
      ensures cat.chains[f][i] < |v.data| && v.data[cat.chains[f][i]] == w.data[cat.chains[f][i]]
    {
      PlaceOf(g, cat.chains, cat.place, f, i);
      NotShared(g, cat.chains, cat.place, d, f, i);
      StillPlaced(g, cat, h, f, i);
    }
    ChainFrame(v.data, w.data, cat.chains[f]);
  }

  lemma CellCluster(e: Entry, cell: Cell)
    requires cell.Entry83? && Matches(e, cell)
    ensures EntryCluster(e) == cell.clus && EntrySize(e) == cell.size && e[11] == cell.attr
    ensures cell.attr == ATTR_DIR || cell.attr == ATTR_ARCHIVE
  {
  }

  /** The entry `k` of directory `d` has the new chain `c` and the size 0, its old chain is gone, and no other file or
      directory is disturbed. */
  ghost predicate EntryRenewed(v: View, cat: Catalog, w: View, cat': Catalog, d: nat, k: nat, c: nat) {
    && d in cat.dirs && k < |cat.dirs[d]| && cat.dirs[d][k].Entry83? && d in cat'.dirs
    && var e := cat.dirs[d][k];
    && Undisturbed(v, cat, w, cat', d, {e.clus})
    && Listing(cat'.dirs[d]) == Listing(cat.dirs[d])[Fold(e.name) := e.(clus := c, size := 0)]
    && k < |cat'.dirs[d]| && cat'.dirs[d][k] == e.(clus := c, size := 0)
    && (c in cat.owner ==> c == e.clus) && c !in cat.dirs
    && d in cat.chains && d in cat'.chains && cat'.chains[d] == cat.chains[d]
    && cat'.owner == (cat.owner - {e.clus})[c := Ref(d, k)] && cat'.dirs.Keys == cat.dirs.Keys
    && c in cat'.chains && cat'.chains[c] == [c]
  }

  /** The directory is still there to be written after the file's old chain was freed and the new one allocated. */
  lemma RenewedReady(g: Geometry, v: View, cat: Catalog, d: nat, k: nat, c: nat, v1: View, v2: View)
    requires g.Valid() && Consistent(g, v, cat) && d in cat.dirs && k < |cat.dirs[d]|
    requires cat.dirs[d][k].Entry83? && cat.dirs[d][k].attr == ATTR_ARCHIVE && cat.dirs[d][k].clus in cat.chains
    requires v1.fat == Cleared(v.fat, cat.chains[cat.dirs[d][k].clus]) && v1.data == v.data && Stray(g, v1, c, v2)
    ensures d in cat.chains && IsChain(g, v2.fat, cat.chains[d])
    ensures |cat.dirs[d]| == PER_SECTOR * Mul(|cat.chains[d]|, g.secPerClus)
  {
    hide Homed, Linked, InUse, TreeOk, AllMatch, Dir, Cleared, IsChain, WellRun, NamesDistinct, ChainFrom, Mul;
    var h := cat.dirs[d][k].clus;
    FreedSound(g, v, cat, d, k, v1);
    SoundAlloc(g, v1, Unlinked(cat, h), {}, {Ref(d, k)}, c, v2);
    HeadIsCluster(g, v, cat, d);
    DirReady(g, v2, WithChain(Unlinked(cat, h), c), {} + {c}, {Ref(d, k)}, d);
    DirReady(g, v, cat, {}, {}, d);
    ChainCovered(g, v, cat.chains[d]);
    DirLength(v.data, cat.chains[d], cat.dirs[d]);
  }

  lemma DirLength(data: Data, ch: seq<nat>, cells: seq<Cell>)
    requires AllMatch(Dir(data, ch), cells)
    ensures |cells| == |Dir(data, ch)|
  {
  }

  lemma EntryIsRenewed(g: Geometry, v: View, cat: Catalog, d: nat, k: nat, c: nat, v1: View, v2: View, e: Entry, w: View)
    requires g.Valid() && Consistent(g, v, cat) && d in cat.dirs && k < |cat.dirs[d]|
    requires cat.dirs[d][k].Entry83? && cat.dirs[d][k].attr == ATTR_ARCHIVE && cat.dirs[d][k].clus in cat.chains
    requires v1.fat == Cleared(v.fat, cat.chains[cat.dirs[d][k].clus]) && v1.data == v.data
    requires Stray(g, v1, c, v2) && Matches(e, cat.dirs[d][k])
    requires d in cat.chains && IsChain(g, v2.fat, cat.chains[d]) && k < PER_SECTOR * Mul(|cat.chains[d]|, g.secPerClus)
    requires w == StoredEntry(g, v2, cat.chains[d], k, Update83(e, c, 0))
    ensures Consistent(g, w, Renewed(cat, d, k, c)) && EntryRenewed(v, cat, w, Renewed(cat, d, k, c), d, k, c)
  {
    hide Consistent, Undisturbed, Listing, Cleared, Stray, StoredEntry, IsChain, Mul, Matches, Update83, Renewed;
    RenewedWrite(g, v, cat, d, k, c, v1, v2, e, w);
    RenewedSound(g, v, cat, d, k, c, v1, v2, w);
    RenewedParts(cat, d, k, c);
    RenewedDisturbsNothing(g, v, cat, d, k, c, v1, v2, w);
  }

  /** The write of the renewed entry, as the directory sees it. */
  lemma RenewedWrite(g: Geometry, v: View, cat: Catalog, d: nat, k: nat, c: nat, v1: View, v2: View, e: Entry, w: View)
    requires g.Valid() && Consistent(g, v, cat) && d in cat.dirs && k < |cat.dirs[d]|
    requires cat.dirs[d][k].Entry83? && cat.dirs[d][k].attr == ATTR_ARCHIVE && cat.dirs[d][k].clus in cat.chains
    requires v1.fat == Cleared(v.fat, cat.chains[cat.dirs[d][k].clus]) && v1.data == v.data
    requires Stray(g, v1, c, v2) && Matches(e, cat.dirs[d][k])
    requires d in cat.chains && IsChain(g, v2.fat, cat.chains[d]) && k < PER_SECTOR * Mul(|cat.chains[d]|, g.secPerClus)
    requires w == StoredEntry(g, v2, cat.chains[d], k, Update83(e, c, 0))
    ensures DirState(g, v2, cat.chains[d], Retargeted(cat.dirs[d], k, c, 0), w)
  {
    hide Homed, Linked, InUse, TreeOk, AllMatch, Dir, Cleared, StoredEntry, Update83, Mul, Matches, IsChain;
    hide WellRun, NamesDistinct, DirState, ChainFrom;
    var h := cat.dirs[d][k].clus;
    FreedSound(g, v, cat, d, k, v1);
    SoundAlloc(g, v1, Unlinked(cat, h), {}, {Ref(d, k)}, c, v2);
    HeadIsCluster(g, v, cat, d);
    DirReady(g, v2, WithChain(Unlinked(cat, h), c), {} + {c}, {Ref(d, k)}, d);
    Update83Matches(e, cat.dirs[d][k], c, 0);
    StoredCell(g, v2, cat.chains[d], cat.dirs[d], k, Update83(e, c, 0), cat.dirs[d][k].(clus := c, size := 0));
  }

  // ---- A new directory ----

  /** What the entry `..` says of the directory above: the root goes by 0. */
  function Above(g: Geometry, parent: nat): nat {
    if parent == g.rootCluster then 0 else parent
  }

  /** The cells of a new directory: itself, its parent (0 for the root), and nothing else. */
  function DotCells(g: Geometry, c: nat, parent: nat): (cells: seq<Cell>)
    requires g.secPerClus > 0
    ensures |cells| == PER_SECTOR * g.secPerClus
    ensures forall i {:trigger cells[i]} :: 0 <= i < |cells| ==>
              cells[i] == if i == 0 then Dot(false, c) else if i == 1 then Dot(true, Above(g, parent)) else Unused
  {
    UnusedCells(g)[0 := Dot(false, c)][1 := Dot(true, Above(g, parent))]
  }

  lemma DotCellsFine(g: Geometry, c: nat, parent: nat)
    requires g.secPerClus > 0 && g.IsCluster(c) && g.IsCluster(parent)
    ensures FreshDir(g, map[c := DotCells(g, c, parent)], c, ATTR_DIR)
    ensures Orderly(map[c := DotCells(g, c, parent)])
  {
    var cells := DotCells(g, c, parent);
    assert WellRun(cells) && NamesDistinct(cells);
  }

  /** The two dot entries at the front of a zeroed cluster make it a directory with nothing in it. */
  lemma DotsWritten(g: Geometry, v: View, c: nat, parent: nat, dot: Entry, dotdot: Entry)
    requires g.Valid() && Fits(g, v) && g.IsCluster(c) && v.data[c] == ZeroSectors(g.secPerClus)
    requires Matches(dot, Dot(false, c)) && Matches(dotdot, Dot(true, Above(g, parent)))
    ensures AllMatch(Dir(v.Patch(c, 0, 0, dot + dotdot).data, [c]), DotCells(g, c, parent))
  {
    hide Matches, Entries;
    var zero := ZeroSectors(g.secPerClus);
    var w := v.Patch(c, 0, 0, dot + dotdot);
    var first: Sector := Splice(zero[0], 0, dot);
    var once: seq<Sector> := zero[0 := first];
    var second: Sector := Splice(once[0], ENTRY_SIZE, dotdot);
    assert Splice(zero[0], 0, dot + dotdot) == second;
    assert w.data[c] == once[0 := second];
    ChainAppend(w.data, [], c);
    assert [] + [c] == [c];
    assert ChainSectors(w.data, [c]) == once[0 := second];
    EntriesUpdate(zero, 0, 0, dot);
    EntriesUpdate(once, 0, 1, dotdot);
    ZeroEntries(g.secPerClus);
    AllMatchUpdate(Entries(zero), UnusedCells(g), 0, dot, Dot(false, c));
    AllMatchUpdate(Entries(once), UnusedCells(g)[0 := Dot(false, c)], 1, dotdot, Dot(true, Above(g, parent)));
  }

  // ---- An entry that goes away ----

  /** Deleted marks over the run of the entry at `k`. */
  function Erased(cells: seq<Cell>, k: nat, n: nat): (r: seq<Cell>)
    requires k < |cells| && cells[k].Entry83? && Parts(cells[k].name) <= k && n <= Parts(cells[k].name) + 1
    ensures |r| == |cells|
    ensures forall i {:trigger r[i]} :: 0 <= i < |cells| ==>
              r[i] == if k - Parts(cells[k].name) <= i < k - Parts(cells[k].name) + n then Deleted else cells[i]
  {
    Splice(cells, k - Parts(cells[k].name), seq(n, _ => Deleted))
  }

  /** What is erased is the entry and the records of its name. */
  lemma ErasedRun(cells: seq<Cell>, k: nat, i: nat)
    requires WellRun(cells) && k < |cells| && cells[k].Entry83? && Parts(cells[k].name) <= k
    requires k - Parts(cells[k].name) <= i < k
    ensures cells[i] == Part(cells[k].name, cells[k].short, k - i)
  {
    RunBefore(cells, k, k - i);
  }

  lemma ErasedWellRun(cells: seq<Cell>, k: nat)
    requires WellRun(cells) && k < |cells| && cells[k].Entry83? && 1 <= Parts(cells[k].name) <= k
    ensures WellRun(Erased(cells, k, Parts(cells[k].name) + 1))
  {
    var p := Parts(cells[k].name);
    var r := Erased(cells, k, p + 1);
    ErasedRun(cells, k, k - p);
    forall i | 0 <= i < |r|
      ensures WellPlaced(r, i)
    {
      assert WellPlaced(cells, i);
    }
  }

  lemma ErasedRefs(cells: seq<Cell>, d: nat, k: nat)
    requires WellRun(cells) && k < |cells| && cells[k].Entry83? && Parts(cells[k].name) <= k
    ensures SameRefs(cells, Erased(cells, k, Parts(cells[k].name) + 1), d, {Ref(d, k)})
    ensures SameBut(cells, Erased(cells, k, Parts(cells[k].name) + 1), k)
  {
    var p := Parts(cells[k].name);
    var r := Erased(cells, k, p + 1);
    forall i | 0 <= i < |r|
      ensures if k - p <= i <= k then r[i] == Deleted && (i == k || cells[i].Part?) else r[i] == cells[i]
    {
      if k - p <= i < k {
        ErasedRun(cells, k, i);
      }
    }
  }

  lemma ErasedListing(cells: seq<Cell>, k: nat)
    requires WellRun(cells) && NamesDistinct(cells) && k < |cells| && cells[k].Entry83? && Parts(cells[k].name) <= k
    ensures NamesDistinct(Erased(cells, k, Parts(cells[k].name) + 1))
    ensures Listing(Erased(cells, k, Parts(cells[k].name) + 1)) == Listing(cells) - {Fold(cells[k].name)}
  {
    hide SameRefs, Fold, WellRun;
    var r := Erased(cells, k, Parts(cells[k].name) + 1);
    ErasedRefs(cells, 0, k);
    assert NamesDistinct(r) by {
      forall i, j {:trigger r[i], r[j]} | 0 <= i < j < |r| && r[i].Entry83? && r[j].Entry83?
        ensures Fold(r[i].name) != Fold(r[j].name)
      {
        assert r[i] == cells[i] && r[j] == cells[j];
      }
    }
    ListingDrop(cells, r, k);
  }

  /** One entry more of the run marked deleted. */
  lemma ErasedNext(cells: seq<Cell>, k: nat, n: nat)
    requires k < |cells| && cells[k].Entry83? && Parts(cells[k].name) <= k && n <= Parts(cells[k].name)
    ensures Erased(cells, k, n)[k - Parts(cells[k].name) + n := Deleted] == Erased(cells, k, n + 1)
    ensures Erased(cells, k, 0) == cells
  {
  }

  /** The catalog after the entry and its chain went away. */
  function Removed(cat: Catalog, d: nat, k: nat): Catalog
    requires d in cat.dirs && k < |cat.dirs[d]| && cat.dirs[d][k].Entry83? && cat.dirs[d][k].clus in cat.chains
    requires Parts(cat.dirs[d][k].name) <= k
  {
    WithCells(Unlinked(cat, cat.dirs[d][k].clus), d, Erased(cat.dirs[d], k, Parts(cat.dirs[d][k].name) + 1))
  }

  /** The entry `k` of directory `d` and its chain are gone, and no other file or directory is disturbed. */
  ghost predicate EntryRemoved(v: View, cat: Catalog, w: View, cat': Catalog, d: nat, k: nat) {
    && d in cat.dirs && k < |cat.dirs[d]| && cat.dirs[d][k].Entry83? && d in cat'.dirs
    && var e := cat.dirs[d][k];
    && Undisturbed(v, cat, w, cat', d, {e.clus})
    && Listing(cat'.dirs[d]) == Listing(cat.dirs[d]) - {Fold(e.name)}
    && cat'.owner == cat.owner - {e.clus} && cat'.chains == cat.chains - {e.clus} && cat'.dirs.Keys == cat.dirs.Keys
  }

  /** What is known when a file's chain was freed and its entry erased. */
  ghost predicate Removing(g: Geometry, v: View, cat: Catalog, d: nat, k: nat, v1: View, w: View) {
    && g.Valid() && Consistent(g, v, cat) && d in cat.dirs && d in cat.chains && k < |cat.dirs[d]|
    && cat.dirs[d][k].Entry83? && cat.dirs[d][k].attr == ATTR_ARCHIVE && cat.dirs[d][k].clus in cat.chains
    && 1 <= Parts(cat.dirs[d][k].name) <= k
    && v1.fat == Cleared(v.fat, cat.chains[cat.dirs[d][k].clus]) && v1.data == v.data
    && DirState(g, v1, cat.chains[d], Erased(cat.dirs[d], k, Parts(cat.dirs[d][k].name) + 1), w)
  }

  lemma RemovedSound(g: Geometry, v: View, cat: Catalog, d: nat, k: nat, v1: View, w: View)
    requires Removing(g, v, cat, d, k, v1, w)
    ensures Consistent(g, w, Removed(cat, d, k))
  {
    hide Homed, Linked, InUse, TreeOk, AllMatch, Dir, Cleared, DirsOk, ChainFrom;
    hide Listing, WellRun, NamesDistinct, Fold, DirState, SameRefs, SameBut;
    var h, cells := cat.dirs[d][k].clus, cat.dirs[d];
    var cells' := Erased(cells, k, Parts(cells[k].name) + 1);
    FreedSound(g, v, cat, d, k, v1);
    assert WellRun(cells) && NamesDistinct(cells);
    ErasedRefs(cells, d, k);
    SoundRewrite(g, v1, Unlinked(cat, h), {}, {Ref(d, k)}, d, cells', w);
    HoleCloses(g, w, Removed(cat, d, k), {}, Ref(d, k));
    ErasedWellRun(cells, k);
    ErasedListing(cells, k);
  }

  /** What removing changes in the catalog, and what it leaves. */
  lemma RemovedParts(cat: Catalog, d: nat, k: nat)
    requires d in cat.dirs && k < |cat.dirs[d]| && cat.dirs[d][k].Entry83? && cat.dirs[d][k].clus in cat.chains
    requires Parts(cat.dirs[d][k].name) <= k
    ensures var h, cat' := cat.dirs[d][k].clus, Removed(cat, d, k);
      && cat'.owner == cat.owner - {h} && cat'.chains == cat.chains - {h}
      && cat'.dirs == cat.dirs[d := Erased(cat.dirs[d], k, Parts(cat.dirs[d][k].name) + 1)]
  {
  }

  lemma RemovedDisturbsNothing(g: Geometry, v: View, cat: Catalog, d: nat, k: nat, v1: View, w: View)
    requires Removing(g, v, cat, d, k, v1, w)
    ensures EntryRemoved(v, cat, w, Removed(cat, d, k), d, k)
  {
    hide Homed, Linked, InUse, AllMatch, Dir, Cleared, DirsOk, Content, EntriesOwn, OwnersAreEntries, Evolves, Removed;
    hide ChainFrom, Erased, WellRun, NamesDistinct, Listing, Fold;
    var h, cells, cat' := cat.dirs[d][k].clus, cat.dirs[d], Removed(cat, d, k);
    FreedSound(g, v, cat, d, k, v1);
    assert WellRun(cells) && NamesDistinct(cells);
    ErasedListing(cells, k);
    RemovedParts(cat, d, k);
    forall f | f in cat.owner && f !in cat.dirs && f != h
      ensures f in cat.chains && Content(w, cat', f) == Content(v, cat, f)
    {
      OtherContent(g, v, cat, d, h, w, cat', f);
    }
    RemovedDirs(g, v, cat);
    RemovedEvolves(g, cat, d, k, cat');
  }

  lemma RemovedEvolves(g: Geometry, cat: Catalog, d: nat, k: nat, cat': Catalog)
    requires TreeOk(g, cat, {}, {}) && d in cat.dirs && k < |cat.dirs[d]| && cat.dirs[d][k].Entry83?
    requires WellRun(cat.dirs[d]) && Parts(cat.dirs[d][k].name) <= k
    requires var h := cat.dirs[d][k].clus;
      && cat'.owner == cat.owner - {h} && cat'.chains == cat.chains - {h} && h !in cat.dirs
      && cat'.dirs == cat.dirs[d := Erased(cat.dirs[d], k, Parts(cat.dirs[d][k].name) + 1)]
    ensures Evolves(cat, cat', {cat.dirs[d][k].clus}, {})
  {
    hide TreeOk, CommittedSize, Erased, WellRun;
    forall f | f in cat.owner && f !in cat.dirs && f != cat.dirs[d][k].clus
      ensures CommittedSize(cat', cat.owner[f]) == CommittedSize(cat, cat.owner[f])
    {
      RemovedSize(g, cat, d, k, f, cat');
    }
  }

  lemma RemovedDirs(g: Geometry, v: View, cat: Catalog)
    requires Sound(g, v, cat, {}, {})
    ensures forall e | e in cat.dirs :: e in cat.chains
  {
  }

  lemma RemovedSize(g: Geometry, cat: Catalog, d: nat, k: nat, f: nat, cat': Catalog)
    requires TreeOk(g, cat, {}, {}) && d in cat.dirs && k < |cat.dirs[d]| && cat.dirs[d][k].Entry83?
    requires WellRun(cat.dirs[d]) && Parts(cat.dirs[d][k].name) <= k
    requires cat'.dirs == cat.dirs[d := Erased(cat.dirs[d], k, Parts(cat.dirs[d][k].name) + 1)]
    requires f in cat.owner && cat.dirs[d][k].clus != f
    ensures CommittedSize(cat', cat.owner[f]) == CommittedSize(cat, cat.owner[f])
  {
    OwnerDir(g, cat, {}, {}, f);
    ErasedRefs(cat.dirs[d], d, k);
    hide TreeOk, WellRun, Erased, SameRefs;
  }

  /** Marking an entry deleted is storing it with another first byte. */
  lemma MarkedEntry(g: Geometry, v: View, ch: seq<nat>, k: nat, pos: DirPos)
    requires g.Valid() && Fits(g, v) && IsChain(g, v.fat, ch) && At(g, ch, k, pos)
    ensures k < PER_SECTOR * Mul(|ch|, g.secPerClus) && k < |Dir(v.data, ch)|
    ensures v.Patch(pos.cluster, Rem(k / PER_SECTOR, g.secPerClus), pos.off, [DELETED]) ==
              StoredEntry(g, v, ch, k, Dir(v.data, ch)[k][0 := DELETED])
  {
    hide Mul, Quot, Rem, Dir, StoredEntry, View.PutSector;
    Locate(g, v, ch, k, pos);
    var e: Entry := Dir(v.data, ch)[k][0 := DELETED];
    PatchedEntry(g, v, ch, k, pos, e);
    var sector := v.data[pos.cluster][Rem(k / PER_SECTOR, g.secPerClus)];
    assert Splice(sector, pos.off, e) == Splice(sector, pos.off, [DELETED]);
  }

  /** One round of the loop that erases a run. */
  lemma ErasingStep(g: Geometry, v: View, ch: seq<nat>, cells: seq<Cell>, k: nat, n: nat, w: View)
    requires g.Valid() && Fits(g, v) && IsChain(g, v.fat, ch) && k < |cells| && cells[k].Entry83?
    requires Parts(cells[k].name) <= k && n <= Parts(cells[k].name)
    requires DirState(g, v, ch, Erased(cells, k, n), w)
    requires var i := k - Parts(cells[k].name) + n; i < PER_SECTOR * Mul(|ch|, g.secPerClus) && i < |Dir(w.data, ch)|
    ensures var i := k - Parts(cells[k].name) + n;
      DirState(g, v, ch, Erased(cells, k, n + 1), StoredEntry(g, w, ch, i, Dir(w.data, ch)[i][0 := DELETED]))
  {
    hide Mul, Quot, Rem, Dir, StoredEntry, IsChain, Erased;
    var i := k - Parts(cells[k].name) + n;
    var e: Entry := Dir(w.data, ch)[i][0 := DELETED];
    StoredEntryEffect(g, w, ch, i, e);
    AllMatchUpdate(Dir(w.data, ch), Erased(cells, k, n), i, e, Deleted);
    ErasedNext(cells, k, n);
  }
}

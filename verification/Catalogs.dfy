/** The meaning of a whole volume: which chains there are, which entry owns which chain, and what stays true of it. */
module Catalogs {
  import opened Bytes
  import opened Layout
  import opened Chains
  import opened Volumes
  import opened ChainData
  import opened Cells
  import opened Directories
  import opened DirAdd

  /** A place in a directory: the directory's first cluster and the number of an entry. */
  datatype Ref = Ref(dir: nat, idx: nat)

  /** A place in a chain: the chain's first cluster and the number of a cluster in it. */
  datatype Home = Home(head: nat, idx: nat)

  datatype Catalog = Catalog(
    /** Every chain, by its first cluster. */
    chains: map<nat, seq<nat>>,
    /** The chain each allocated cluster belongs to. */
    place: map<nat, Home>,
    /** The directories among the chains, by their cells. */
    dirs: map<nat, seq<Cell>>,
    /** The entry that owns each chain. */
    owner: map<nat, Ref>,
    /** The distance of each directory from the root. */
    depth: map<nat, nat>)

  type ChainMap = map<nat, seq<nat>>
  type Places = map<nat, Home>

  /** Every cluster of a chain has its place there and nowhere else, and every place is one in a chain. */
  ghost predicate Homed(g: Geometry, chains: ChainMap, place: Places) {
    && (forall h {:trigger chains[h]} :: h in chains ==> |chains[h]| > 0 && chains[h][0] == h)
    && (forall h, i {:trigger chains[h][i]} :: h in chains && 0 <= i < |chains[h]| ==>
          g.IsCluster(chains[h][i]) && chains[h][i] in place && place[chains[h][i]] == Home(h, i))
    && (forall c {:trigger c in place} :: c in place ==>
          && place[c].head in chains && place[c].idx < |chains[place[c].head]|
          && chains[place[c].head][place[c].idx] == c)
  }

  /** Each cluster of a chain leads to the next one, and the last one to an end-of-chain value. */
  ghost predicate Linked(g: Geometry, fat: seq<nat>, chains: ChainMap) {
    && |fat| == g.totalClusters + 2
    && forall h, i {:trigger fat[chains[h][i]]} :: h in chains && 0 <= i < |chains[h]| ==>
         && chains[h][i] < |fat|
         && if i + 1 < |chains[h]| then fat[chains[h][i]] == chains[h][i + 1] else fat[chains[h][i]] >= EOC
  }

  /** Exactly the clusters in use have a place. */
  ghost predicate InUse(fat: seq<nat>, place: Places) {
    forall c {:trigger fat[c]} :: 2 <= c < |fat| ==> (c in place <==> fat[c] != FREE && fat[c] != BAD)
  }

  /** Chains are closed by end-of-chain values, no cluster is in two places, and exactly the clusters in use are in
      some chain. */
  ghost predicate TableOk(g: Geometry, fat: seq<nat>, cat: Catalog) {
    Homed(g, cat.chains, cat.place) && Linked(g, fat, cat.chains) && InUse(fat, cat.place)
  }

  /** The entry owns its chain; a file's size fits its chain; a directory lies one level below its parent. */
  ghost predicate RefOk(g: Geometry, cat: Catalog, d: nat, i: nat)
    requires d in cat.dirs && i < |cat.dirs[d]| && cat.dirs[d][i].Entry83?
  {
    var e := cat.dirs[d][i];
    && e.clus in cat.owner && cat.owner[e.clus] == Ref(d, i) && e.clus in cat.chains
    && (e.attr == ATTR_DIR <==> e.clus in cat.dirs)
    && (e.attr == ATTR_DIR ==> d in cat.depth && e.clus in cat.depth && cat.depth[e.clus] == cat.depth[d] + 1)
    && (e.attr != ATTR_DIR ==> e.size <= SECTOR_SIZE * Mul(|cat.chains[e.clus]|, g.secPerClus))
  }

  /** Every short entry but those in `hole` owns a chain; dot entries lead to a cluster or nowhere. */
  ghost predicate EntriesOwn(g: Geometry, cat: Catalog, hole: set<Ref>) {
    forall d, i {:trigger cat.dirs[d][i]} :: d in cat.dirs && 0 <= i < |cat.dirs[d]| ==>
      && (cat.dirs[d][i].Entry83? && Ref(d, i) !in hole ==> RefOk(g, cat, d, i))
      && (cat.dirs[d][i].Dot? ==> cat.dirs[d][i].clus == 0 || g.IsCluster(cat.dirs[d][i].clus))
  }

  /** Owners are short entries that say so. */
  ghost predicate OwnersAreEntries(dirs: map<nat, seq<Cell>>, owner: map<nat, Ref>, hole: set<Ref>) {
    forall h {:trigger owner[h]} :: h in owner ==>
      && owner[h].dir in dirs && owner[h].idx < |dirs[owner[h].dir]|
      && owner[h] !in hole
      && dirs[owner[h].dir][owner[h].idx].Entry83? && dirs[owner[h].dir][owner[h].idx].clus == h
  }

  /** Every chain but the root's and those in `pend` has an owner. */
  ghost predicate Shape(g: Geometry, cat: Catalog, pend: set<nat>) {
    && g.rootCluster in cat.dirs && cat.dirs.Keys <= cat.chains.Keys && cat.depth.Keys == cat.dirs.Keys
    && cat.depth[g.rootCluster] == 0
    && cat.chains.Keys == {g.rootCluster} + cat.owner.Keys + pend
    && g.rootCluster !in cat.owner && g.rootCluster !in pend
    && pend !! cat.owner.Keys && pend !! cat.dirs.Keys
  }

  ghost predicate TreeOk(g: Geometry, cat: Catalog, pend: set<nat>, hole: set<Ref>) {
    && Shape(g, cat, pend)
    && EntriesOwn(g, cat, hole)
    && OwnersAreEntries(cat.dirs, cat.owner, hole)
  }

  /** The directories on the disk read as the catalog says. */
  ghost predicate DirsOk(data: Data, cat: Catalog) {
    && cat.dirs.Keys <= cat.chains.Keys
    && forall d {:trigger cat.dirs[d]} :: d in cat.dirs ==> AllMatch(Dir(data, cat.chains[d]), cat.dirs[d])
  }

  /** The volume is described by the catalog, but for chains not referenced yet or any more (`pend`) and entries whose
      chain is gone (`hole`). */
  ghost predicate Sound(g: Geometry, v: View, cat: Catalog, pend: set<nat>, hole: set<Ref>) {
    && Fits(g, v)
    && TableOk(g, v.fat, cat)
    && TreeOk(g, cat, pend, hole)
    && DirsOk(v.data, cat)
  }

  /** Every directory is well formed and lists no name twice. */
  ghost predicate Orderly(dirs: map<nat, seq<Cell>>) {
    forall d {:trigger dirs[d]} :: d in dirs ==> WellRun(dirs[d]) && NamesDistinct(dirs[d])
  }

  /** Between operations. */
  ghost predicate Consistent(g: Geometry, v: View, cat: Catalog) {
    Sound(g, v, cat, {}, {}) && Orderly(cat.dirs)
  }

  // ---- The table ----

  lemma ChainOf(g: Geometry, fat: seq<nat>, cat: Catalog, h: nat)
    requires TableOk(g, fat, cat) && h in cat.chains
    ensures IsChain(g, fat, cat.chains[h]) && cat.chains[h][0] == h
    ensures g.IsCluster(h)
  {
    var ch := cat.chains[h];
    forall i, j {:trigger ch[i], ch[j]} | 0 <= i < j < |ch|
      ensures ch[i] != ch[j]
    {
      assert cat.chains[h][i] in cat.place && cat.chains[h][j] in cat.place;
    }
    forall i {:trigger fat[ch[i]]} | 0 <= i < |ch|
      ensures if i + 1 < |ch| then fat[ch[i]] == ch[i + 1] else fat[ch[i]] >= EOC
    {
      assert fat[cat.chains[h][i]] == fat[ch[i]];
    }
  }

  /** A cluster of a chain is in no other chain. */
  lemma PlaceOf(g: Geometry, chains: ChainMap, place: Places, h: nat, i: nat)
    requires Homed(g, chains, place) && h in chains && i < |chains[h]|
    ensures chains[h][i] in place && place[chains[h][i]] == Home(h, i) && g.IsCluster(chains[h][i])
  {
  }

  lemma NotShared(g: Geometry, chains: ChainMap, place: Places, d: nat, e: nat, i: nat)
    requires Homed(g, chains, place) && d in chains && e in chains && d != e && i < |chains[e]|
    ensures chains[e][i] !in chains[d]
  {
    PlaceOf(g, chains, place, e, i);
    forall j | 0 <= j < |chains[d]|
      ensures chains[d][j] != chains[e][i]
    {
      PlaceOf(g, chains, place, d, j);
    }
  }

  lemma HeadPlaced(g: Geometry, chains: ChainMap, place: Places, h: nat)
    requires Homed(g, chains, place)
    ensures h in chains ==> h in place
  {
    if h in chains {
      PlaceOf(g, chains, place, h, 0);
    }
  }

  function WithChain(cat: Catalog, c: nat): Catalog {
    cat.(chains := cat.chains[c := [c]], place := cat.place[c := Home(c, 0)])
  }

  lemma TableAlloc(g: Geometry, fat: seq<nat>, cat: Catalog, c: nat)
    requires g.Valid() && TableOk(g, fat, cat) && g.IsCluster(c) && fat[c] == FREE
    ensures c !in cat.place && c !in cat.chains
    ensures TableOk(g, fat[c := EOC_MARK], WithChain(cat, c))
  {
    var cat', fat' := WithChain(cat, c), fat[c := EOC_MARK];
    assert c !in cat.place;
    HeadPlaced(g, cat.chains, cat.place, c);
    LinkedElsewhere(g, fat, cat, fat', cat'.chains, c);
    assert InUse(fat', cat'.place);
  }

  /** Links survive changes to the table at clusters of no chain. */
  lemma LinkedElsewhere(g: Geometry, fat: seq<nat>, cat: Catalog, fat': seq<nat>, chains': ChainMap, c: nat)
    requires TableOk(g, fat, cat) && c !in cat.place && |fat'| == |fat| && c < |fat|
    requires forall x | 0 <= x < |fat| && x != c :: fat'[x] == fat[x]
    requires fat'[c] >= EOC && chains' == cat.chains[c := [c]]
    ensures Linked(g, fat', chains')
  {
    forall h, i {:trigger fat'[chains'[h][i]]} | h in chains' && 0 <= i < |chains'[h]|
      ensures chains'[h][i] < |fat'|
      ensures if i + 1 < |chains'[h]| then fat'[chains'[h][i]] == chains'[h][i + 1] else fat'[chains'[h][i]] >= EOC
    {
      if h != c {
        PlaceOf(g, cat.chains, cat.place, h, i);
        assert fat[cat.chains[h][i]] == fat'[chains'[h][i]];
      }
    }
  }

  function Extended(cat: Catalog, h: nat, c: nat): Catalog
    requires h in cat.chains
  {
    cat.(chains := cat.chains[h := cat.chains[h] + [c]], place := cat.place[c := Home(h, |cat.chains[h]|)])
  }

  lemma TableExtend(g: Geometry, fat: seq<nat>, cat: Catalog, h: nat, c: nat, last: nat)
    requires g.Valid() && TableOk(g, fat, cat) && h in cat.chains && g.IsCluster(c) && fat[c] == FREE
    requires last == cat.chains[h][|cat.chains[h]| - 1]
    ensures g.IsCluster(last) && last != c && c !in cat.place
    ensures TableOk(g, LinkedFat(fat, last, c), Extended(cat, h, c))
  {
    var cat', fat' := Extended(cat, h, c), LinkedFat(fat, last, c);
    PlaceOf(g, cat.chains, cat.place, h, |cat.chains[h]| - 1);
    assert c !in cat.place;
    HomedExtend(g, cat, h, c);
    LinkedExtend(g, fat, cat, h, c, last);
    assert fat[last] != FREE;
    assert InUse(fat', cat'.place);
  }

  lemma HomedExtend(g: Geometry, cat: Catalog, h: nat, c: nat)
    requires Homed(g, cat.chains, cat.place) && h in cat.chains && g.IsCluster(c) && c !in cat.place
    ensures Homed(g, Extended(cat, h, c).chains, Extended(cat, h, c).place)
  {
    var cat' := Extended(cat, h, c);
    forall k, i {:trigger cat'.chains[k][i]} | k in cat'.chains && 0 <= i < |cat'.chains[k]|
      ensures g.IsCluster(cat'.chains[k][i])
        && cat'.chains[k][i] in cat'.place && cat'.place[cat'.chains[k][i]] == Home(k, i)
    {
      if k != h || i < |cat.chains[h]| {
        PlaceOf(g, cat.chains, cat.place, k, i);
      }
    }
  }

  lemma LinkedExtend(g: Geometry, fat: seq<nat>, cat: Catalog, h: nat, c: nat, last: nat)
    requires TableOk(g, fat, cat) && h in cat.chains && g.IsCluster(c) && c !in cat.place
    requires last == cat.chains[h][|cat.chains[h]| - 1] && last < |fat| && last != 0
    ensures Linked(g, LinkedFat(fat, last, c), Extended(cat, h, c).chains)
  {
    var ch, fat', chains' := cat.chains[h], LinkedFat(fat, last, c), Extended(cat, h, c).chains;
    PlaceOf(g, cat.chains, cat.place, h, |ch| - 1);
    forall k, i {:trigger fat'[chains'[k][i]]} | k in chains' && 0 <= i < |chains'[k]|
      ensures chains'[k][i] < |fat'|
      ensures if i + 1 < |chains'[k]| then fat'[chains'[k][i]] == chains'[k][i + 1] else fat'[chains'[k][i]] >= EOC
    {
      if k != h || i < |ch| {
        PlaceOf(g, cat.chains, cat.place, k, i);
        assert fat[cat.chains[k][i]] == fat[chains'[k][i]];
      }
    }
  }

  function Without(cat: Catalog, h: nat): Catalog
    requires h in cat.chains
  {
    cat.(chains := cat.chains - {h}, place := map c | c in cat.place && cat.place[c].head != h :: cat.place[c])
  }

  lemma TableFree(g: Geometry, fat: seq<nat>, cat: Catalog, h: nat)
    requires TableOk(g, fat, cat) && h in cat.chains
    ensures TableOk(g, Cleared(fat, cat.chains[h]), Without(cat, h))
  {
    var ch, fat', cat' := cat.chains[h], Cleared(fat, cat.chains[h]), Without(cat, h);
    forall c
      ensures c in ch <==> c in cat.place && cat.place[c].head == h
    {
      if c in ch {
        var i :| 0 <= i < |ch| && ch[i] == c;
        PlaceOf(g, cat.chains, cat.place, h, i);
      }
    }
    assert Homed(g, cat'.chains, cat'.place);
    LinkedFree(g, fat, cat, h);
    assert InUse(fat', cat'.place);
  }

  lemma LinkedFree(g: Geometry, fat: seq<nat>, cat: Catalog, h: nat)
    requires TableOk(g, fat, cat) && h in cat.chains
    requires forall c :: c in cat.chains[h] <==> c in cat.place && cat.place[c].head == h
    ensures Linked(g, Cleared(fat, cat.chains[h]), Without(cat, h).chains)
  {
    var fat', chains' := Cleared(fat, cat.chains[h]), Without(cat, h).chains;
    forall k, i {:trigger fat'[chains'[k][i]]} | k in chains' && 0 <= i < |chains'[k]|
      ensures chains'[k][i] < |fat'|
      ensures if i + 1 < |chains'[k]| then fat'[chains'[k][i]] == chains'[k][i + 1] else fat'[chains'[k][i]] >= EOC
    {
      PlaceOf(g, cat.chains, cat.place, k, i);
      assert fat[cat.chains[k][i]] == fat'[chains'[k][i]];
    }
  }

  // ---- The tree ----

  /** Directories do not notice changes to clusters of no directory. */
  lemma DirsElsewhere(g: Geometry, cat: Catalog, data: Data, data': Data)
    requires Homed(g, cat.chains, cat.place) && DirsOk(data, cat)
    requires |data| == |data'| == g.totalClusters + 2
    requires forall c | c in cat.place && cat.place[c].head in cat.dirs :: c < |data| ==> data'[c] == data[c]
    ensures DirsOk(data', cat)
  {
    forall d {:trigger cat.dirs[d]} | d in cat.dirs
      ensures AllMatch(Dir(data', cat.chains[d]), cat.dirs[d])
    {
      forall i {:trigger cat.chains[d][i]} | 0 <= i < |cat.chains[d]|
        ensures cat.chains[d][i] < |data| && data[cat.chains[d][i]] == data'[cat.chains[d][i]]
      {
        PlaceOf(g, cat.chains, cat.place, d, i);
      }
      ChainFrame(data, data', cat.chains[d]);
    }
  }

  function WithCells(cat: Catalog, d: nat, cells: seq<Cell>): Catalog {
    cat.(dirs := cat.dirs[d := cells])
  }

  /** Rewriting one directory leaves the others as they read. */
  lemma DirsRewrite(g: Geometry, v: View, cat: Catalog, d: nat, cells: seq<Cell>, w: View)
    requires Fits(g, v) && Homed(g, cat.chains, cat.place) && DirsOk(v.data, cat)
    requires d in cat.dirs && DirState(g, v, cat.chains[d], cells, w)
    ensures DirsOk(w.data, WithCells(cat, d, cells))
  {
    var cat' := WithCells(cat, d, cells);
    forall e {:trigger cat'.dirs[e]} | e in cat'.dirs
      ensures AllMatch(Dir(w.data, cat'.chains[e]), cat'.dirs[e])
    {
      if e != d {
        forall i {:trigger cat.chains[e][i]} | 0 <= i < |cat.chains[e]|
          ensures cat.chains[e][i] < |v.data| && v.data[cat.chains[e][i]] == w.data[cat.chains[e][i]]
        {
          PlaceOf(g, cat.chains, cat.place, e, i);
          NotShared(g, cat.chains, cat.place, d, e, i);
        }
        ChainFrame(v.data, w.data, cat.chains[e]);
      }
    }
  }

  lemma TreeAlloc(g: Geometry, cat: Catalog, pend: set<nat>, hole: set<Ref>, c: nat)
    requires TreeOk(g, cat, pend, hole) && c !in cat.chains
    ensures TreeOk(g, WithChain(cat, c), pend + {c}, hole)
    ensures c !in cat.owner && c !in cat.dirs
  {
    EntriesStayOwners(g, cat, WithChain(cat, c), hole);
  }

  /** Owning goes on when chains only grow and more of them appear. */
  lemma EntriesStayOwners(g: Geometry, cat: Catalog, cat': Catalog, hole: set<Ref>)
    requires EntriesOwn(g, cat, hole)
    requires cat'.dirs == cat.dirs && cat'.depth == cat.depth && cat'.owner == cat.owner
    requires forall h {:trigger cat'.chains[h]} :: h in cat.chains ==>
               h in cat'.chains && |cat.chains[h]| <= |cat'.chains[h]| <= |cat.chains[h]| + 1
    ensures EntriesOwn(g, cat', hole)
  {
    forall d, i {:trigger cat'.dirs[d][i]} | d in cat'.dirs && 0 <= i < |cat'.dirs[d]| && cat'.dirs[d][i].Entry83?
      ensures Ref(d, i) !in hole ==> RefOk(g, cat', d, i)
    {
      if Ref(d, i) !in hole {
        assert RefOk(g, cat, d, i);
        var h := cat.dirs[d][i].clus;
        MulGrows(|cat.chains[h]|, g.secPerClus);
      }
    }
  }

  lemma MulGrows(a: nat, n: nat)
    ensures Mul(a, n) <= Mul(a + 1, n)
  {
  }

  lemma TreeExtended(g: Geometry, cat: Catalog, pend: set<nat>, hole: set<Ref>, h: nat, c: nat)
    requires TreeOk(g, cat, pend, hole) && h in cat.chains
    ensures TreeOk(g, Extended(cat, h, c), pend, hole)
  {
    EntriesStayOwners(g, cat, Extended(cat, h, c), hole);
  }

  /** Outside the entries named in `hole`, short entries and dot entries are as before; further places may follow. */
  ghost predicate SameRefs(cells: seq<Cell>, cells': seq<Cell>, d: nat, hole: set<Ref>) {
    && |cells| <= |cells'|
    && (forall i {:trigger cells'[i]} :: 0 <= i < |cells'| ==>
         && (cells'[i].Entry83? && Ref(d, i) !in hole ==> i < |cells| && cells'[i] == cells[i])
         && (cells'[i].Dot? ==> i < |cells| && cells'[i] == cells[i]))
    && (forall i {:trigger cells[i]} :: 0 <= i < |cells| && cells[i].Entry83? && Ref(d, i) !in hole ==> cells'[i] == cells[i])
  }

  lemma TreeRewrite(g: Geometry, cat: Catalog, pend: set<nat>, hole: set<Ref>, d: nat, cells: seq<Cell>)
    requires TreeOk(g, cat, pend, hole) && d in cat.dirs && SameRefs(cat.dirs[d], cells, d, hole)
    ensures TreeOk(g, WithCells(cat, d, cells), pend, hole)
  {
    EntriesRewrite(g, cat, hole, d, cells);
    OwnersRewrite(cat.dirs, cat.owner, hole, d, cells);
  }

  lemma EntriesRewrite(g: Geometry, cat: Catalog, hole: set<Ref>, d: nat, cells: seq<Cell>)
    requires EntriesOwn(g, cat, hole) && d in cat.dirs && SameRefs(cat.dirs[d], cells, d, hole)
    ensures EntriesOwn(g, WithCells(cat, d, cells), hole)
  {
    var cat' := WithCells(cat, d, cells);
    forall e, i {:trigger cat'.dirs[e][i]} | e in cat'.dirs && 0 <= i < |cat'.dirs[e]|
      ensures cat'.dirs[e][i].Entry83? && Ref(e, i) !in hole ==> RefOk(g, cat', e, i)
      ensures cat'.dirs[e][i].Dot? ==> cat'.dirs[e][i].clus == 0 || g.IsCluster(cat'.dirs[e][i].clus)
    {
      if (cat'.dirs[e][i].Entry83? && Ref(e, i) !in hole) || cat'.dirs[e][i].Dot? {
        assert cat'.dirs[e][i] == cat.dirs[e][i];
      }
    }
  }

  lemma OwnersRewrite(dirs: map<nat, seq<Cell>>, owner: map<nat, Ref>, hole: set<Ref>, d: nat, cells: seq<Cell>)
    requires OwnersAreEntries(dirs, owner, hole) && d in dirs && SameRefs(dirs[d], cells, d, hole)
    ensures OwnersAreEntries(dirs[d := cells], owner, hole)
  {
    forall h {:trigger owner[h]} | h in owner && owner[h].dir == d
      ensures owner[h].idx < |cells| && cells[owner[h].idx] == dirs[d][owner[h].idx]
    {
      assert Ref(d, owner[h].idx) == owner[h];
    }
  }

  /** An entry's chain is given up: the entry is a hole and the chain is pending. */
  function Detached(cat: Catalog, h: nat): Catalog {
    cat.(owner := cat.owner - {h})
  }

  lemma TreeDetach(g: Geometry, cat: Catalog, h: nat)
    requires TreeOk(g, cat, {}, {}) && h in cat.owner && h !in cat.dirs
    ensures TreeOk(g, Detached(cat, h), {h}, {cat.owner[h]})
  {
    var cat', r := Detached(cat, h), cat.owner[h];
    forall e, i {:trigger cat'.dirs[e][i]} | e in cat'.dirs && 0 <= i < |cat'.dirs[e]| && cat'.dirs[e][i].Entry83?
      ensures Ref(e, i) != r ==> RefOk(g, cat', e, i)
    {
      assert RefOk(g, cat, e, i);
    }
    assert OwnersAreEntries(cat'.dirs, cat'.owner, {r}) by {
      forall k {:trigger cat'.owner[k]} | k in cat'.owner
        ensures cat'.owner[k] != r
      {
        assert cat.owner[k] == cat'.owner[k];
      }
    }
  }

  /** The cells of the chain to be attached, if it is a directory: no short entries, and dot entries that lead to a
      cluster or nowhere. */
  ghost predicate FreshDir(g: Geometry, sub: map<nat, seq<Cell>>, c: nat, attr: Byte) {
    && sub.Keys == (if attr == ATTR_DIR then {c} else {})
    && forall x, i {:trigger sub[x][i]} :: x in sub && 0 <= i < |sub[x]| ==>
         && !sub[x][i].Entry83?
         && (sub[x][i].Dot? ==> sub[x][i].clus == 0 || g.IsCluster(sub[x][i].clus))
  }

  /** A pending chain gets its owner, and its cells if it is a directory. */
  function Attached(cat: Catalog, d: nat, cells: seq<Cell>, k: nat, c: nat, sub: map<nat, seq<Cell>>): Catalog {
    var depth := if d in cat.depth then cat.depth[d] + 1 else 0;
    cat.(dirs := cat.dirs[d := cells] + sub, owner := cat.owner[c := Ref(d, k)],
         depth := cat.depth + map x | x in sub :: depth)
  }

  /** What attaching asks of the entry: it is a new one, or one that lost its chain, for a pending chain. */
  ghost predicate Attachable(g: Geometry, cat: Catalog, pend: set<nat>, hole: set<Ref>, d: nat, cells: seq<Cell>, k: nat,
                             sub: map<nat, seq<Cell>>) {
    && d in cat.dirs && hole <= {Ref(d, k)}
    && k < |cells| && cells[k].Entry83? && cells[k].clus in pend && cells[k].size == 0
    && (k >= |cat.dirs[d]| || !cat.dirs[d][k].Entry83? || Ref(d, k) in hole)
    && FreshDir(g, sub, cells[k].clus, cells[k].attr)
    && SameRefs(cat.dirs[d], cells, d, {Ref(d, k)})
  }

  lemma TreeAttach(g: Geometry, cat: Catalog, pend: set<nat>, hole: set<Ref>, d: nat, cells: seq<Cell>, k: nat,
                   sub: map<nat, seq<Cell>>)
    requires TreeOk(g, cat, pend, hole) && Attachable(g, cat, pend, hole, d, cells, k, sub)
    ensures TreeOk(g, Attached(cat, d, cells, k, cells[k].clus, sub), pend - {cells[k].clus}, {})
  {
    hide SameRefs;
    var c := cells[k].clus;
    EntriesAttach(g, cat, pend, hole, d, cells, k, sub);
    OwnersAttach(g, cat, pend, hole, d, cells, k, sub);
    ShapeAttach(g, cat, pend, hole, d, cells, k, sub);
  }

  lemma ShapeAttach(g: Geometry, cat: Catalog, pend: set<nat>, hole: set<Ref>, d: nat, cells: seq<Cell>, k: nat,
                    sub: map<nat, seq<Cell>>)
    requires Shape(g, cat, pend) && Attachable(g, cat, pend, hole, d, cells, k, sub)
    ensures Shape(g, Attached(cat, d, cells, k, cells[k].clus, sub), pend - {cells[k].clus})
  {
    hide SameRefs;
  }

  /** What attaching changes, and what it leaves. */
  lemma AttachedParts(g: Geometry, cat: Catalog, pend: set<nat>, hole: set<Ref>, d: nat, cells: seq<Cell>, k: nat,
                      sub: map<nat, seq<Cell>>)
    requires Shape(g, cat, pend) && Attachable(g, cat, pend, hole, d, cells, k, sub)
    ensures var c := cells[k].clus;
      && c !in cat.owner && c !in cat.dirs && c in cat.chains && c != d
      && var cat' := Attached(cat, d, cells, k, c, sub);
      && cat'.chains == cat.chains && cat'.owner == cat.owner[c := Ref(d, k)]
      && (forall x | x != c :: x in cat'.dirs <==> x in cat.dirs)
      && (c in cat'.dirs <==> cells[k].attr == ATTR_DIR) && (c in cat'.dirs ==> c in sub && cat'.dirs[c] == sub[c])
      && (forall x | x in cat.dirs :: cat'.dirs[x] == if x == d then cells else cat.dirs[x])
      && (forall x | x in cat.depth :: x in cat'.depth && cat'.depth[x] == cat.depth[x])
      && (c in cat'.dirs ==> c in cat'.depth && cat'.depth[c] == cat.depth[d] + 1)
  {
    hide SameRefs;
  }

  lemma EntriesAttach(g: Geometry, cat: Catalog, pend: set<nat>, hole: set<Ref>, d: nat, cells: seq<Cell>, k: nat,
                      sub: map<nat, seq<Cell>>)
    requires EntriesOwn(g, cat, hole) && Shape(g, cat, pend) && Attachable(g, cat, pend, hole, d, cells, k, sub)
    ensures EntriesOwn(g, Attached(cat, d, cells, k, cells[k].clus, sub), {})
  {
    AttachedParts(g, cat, pend, hole, d, cells, k, sub);
    hide Attached, Shape, SameRefs, FreshDir, RefOk, EntriesOwn;
    var c := cells[k].clus;
    var cat' := Attached(cat, d, cells, k, c, sub);
    NewEntryOwns(g, cat, d, cells, k, cat');
    forall e, i {:trigger cat'.dirs[e][i]} | e in cat'.dirs && 0 <= i < |cat'.dirs[e]|
      ensures cat'.dirs[e][i].Entry83? ==> RefOk(g, cat', e, i)
      ensures cat'.dirs[e][i].Dot? ==> cat'.dirs[e][i].clus == 0 || g.IsCluster(cat'.dirs[e][i].clus)
    {
      if e == c {
        FreshCell(g, sub, c, cells[k].attr, i);
      } else if (cat'.dirs[e][i].Entry83? || cat'.dirs[e][i].Dot?) && !(e == d && i == k) {
        if e == d {
          SameRefAt(cat.dirs[d], cells, d, {Ref(d, k)}, i);
        }
        EntryOwns(g, cat, hole, e, i);
        StillOwns(g, cat, cat', c, e, i);
      }
    }
    AllOwn(g, cat');
  }

  lemma AllOwn(g: Geometry, cat: Catalog)
    requires forall d, i {:trigger cat.dirs[d][i]} :: d in cat.dirs && 0 <= i < |cat.dirs[d]| ==>
               && (cat.dirs[d][i].Entry83? ==> RefOk(g, cat, d, i))
               && (cat.dirs[d][i].Dot? ==> cat.dirs[d][i].clus == 0 || g.IsCluster(cat.dirs[d][i].clus))
    ensures EntriesOwn(g, cat, {})
  {
  }

  lemma NewEntryOwns(g: Geometry, cat: Catalog, d: nat, cells: seq<Cell>, k: nat, cat': Catalog)
    requires k < |cells| && cells[k].Entry83? && d in cat'.dirs && cat'.dirs[d] == cells && cells[k].size == 0
    requires cells[k].clus in cat'.owner && cat'.owner[cells[k].clus] == Ref(d, k) && cells[k].clus in cat'.chains
    requires cells[k].attr == ATTR_DIR <==> cells[k].clus in cat'.dirs
    requires cells[k].clus in cat'.dirs ==>
               d in cat'.depth && cells[k].clus in cat'.depth && cat'.depth[cells[k].clus] == cat'.depth[d] + 1
    ensures RefOk(g, cat', d, k)
  {
  }

  lemma FreshCell(g: Geometry, sub: map<nat, seq<Cell>>, c: nat, attr: Byte, i: nat)
    requires FreshDir(g, sub, c, attr) && c in sub && i < |sub[c]|
    ensures !sub[c][i].Entry83? && (sub[c][i].Dot? ==> sub[c][i].clus == 0 || g.IsCluster(sub[c][i].clus))
  {
  }

  lemma SameRefAt(cells: seq<Cell>, cells': seq<Cell>, d: nat, hole: set<Ref>, i: nat)
    requires SameRefs(cells, cells', d, hole) && i < |cells'|
    requires (cells'[i].Entry83? && Ref(d, i) !in hole) || cells'[i].Dot?
    ensures i < |cells| && cells'[i] == cells[i]
  {
  }

  lemma EntryOwns(g: Geometry, cat: Catalog, hole: set<Ref>, d: nat, i: nat)
    requires EntriesOwn(g, cat, hole) && d in cat.dirs && i < |cat.dirs[d]|
    ensures cat.dirs[d][i].Entry83? && Ref(d, i) !in hole ==> RefOk(g, cat, d, i)
    ensures cat.dirs[d][i].Dot? ==> cat.dirs[d][i].clus == 0 || g.IsCluster(cat.dirs[d][i].clus)
  {
  }

  /** An entry that owns another chain than the new one goes on owning it. */
  lemma StillOwns(g: Geometry, cat: Catalog, cat': Catalog, c: nat, e: nat, i: nat)
    requires e in cat.dirs && i < |cat.dirs[e]| && e in cat'.dirs && i < |cat'.dirs[e]|
    requires cat'.dirs[e][i] == cat.dirs[e][i] && cat'.chains == cat.chains && c !in cat.owner
    requires forall h | h in cat.owner && h != c :: h in cat'.owner && cat'.owner[h] == cat.owner[h]
    requires forall x | x != c :: x in cat'.dirs <==> x in cat.dirs
    requires forall x | x in cat.depth && x != c :: x in cat'.depth && cat'.depth[x] == cat.depth[x]
    requires c !in cat.dirs
    ensures cat.dirs[e][i].Entry83? && RefOk(g, cat, e, i) ==> RefOk(g, cat', e, i)
  {
  }

  /** No entry owns through the place that gets attached. */
  lemma OwnersNotHere(g: Geometry, cat: Catalog, pend: set<nat>, hole: set<Ref>, d: nat, cells: seq<Cell>, k: nat,
                      sub: map<nat, seq<Cell>>, h: nat)
    requires OwnersAreEntries(cat.dirs, cat.owner, hole) && h in cat.owner
    requires Attachable(g, cat, pend, hole, d, cells, k, sub)
    ensures cat.owner[h] != Ref(d, k)
  {
    hide SameRefs, FreshDir;
    var r := cat.owner[h];
    assert cat.dirs[r.dir][r.idx].Entry83?;
  }

  lemma OwnersAttach(g: Geometry, cat: Catalog, pend: set<nat>, hole: set<Ref>, d: nat, cells: seq<Cell>, k: nat,
                     sub: map<nat, seq<Cell>>)
    requires OwnersAreEntries(cat.dirs, cat.owner, hole) && Shape(g, cat, pend)
    requires Attachable(g, cat, pend, hole, d, cells, k, sub)
    ensures var cat' := Attached(cat, d, cells, k, cells[k].clus, sub); OwnersAreEntries(cat'.dirs, cat'.owner, {})
  {
    AttachedParts(g, cat, pend, hole, d, cells, k, sub);
    hide Attached, Shape, FreshDir, OwnersAreEntries, SameRefs;
    var cat' := Attached(cat, d, cells, k, cells[k].clus, sub);
    forall h | h in cat.owner
      ensures cat.owner[h] != Ref(d, k)
    {
      OwnersNotHere(g, cat, pend, hole, d, cells, k, sub, h);
    }
    OwnersKept(cat.dirs, cat'.dirs, cat.owner, hole, d, cells, k);
  }

  lemma OwnersKept(dirs: map<nat, seq<Cell>>, dirs': map<nat, seq<Cell>>, owner: map<nat, Ref>, hole: set<Ref>,
                   d: nat, cells: seq<Cell>, k: nat)
    requires OwnersAreEntries(dirs, owner, hole) && d in dirs && SameRefs(dirs[d], cells, d, {Ref(d, k)})
    requires k < |cells| && cells[k].Entry83?
    requires forall x | x in dirs :: x in dirs' && dirs'[x] == if x == d then cells else dirs[x]
    requires forall h | h in owner :: owner[h] != Ref(d, k)
    ensures OwnersAreEntries(dirs', owner[cells[k].clus := Ref(d, k)], {})
  {
    forall h {:trigger owner[h]} | h in owner && owner[h].dir == d
      ensures owner[h].idx < |cells| && cells[owner[h].idx] == dirs[d][owner[h].idx]
    {
      assert Ref(d, owner[h].idx) == owner[h];
    }
  }

  // ---- The volume ----

  lemma SoundAlloc(g: Geometry, v: View, cat: Catalog, pend: set<nat>, hole: set<Ref>, c: nat, w: View)
    requires g.Valid() && Sound(g, v, cat, pend, hole) && g.IsCluster(c) && v.fat[c] == FREE
    requires Fits(g, w) && w.fat == v.fat[c := EOC_MARK] && forall x | 0 <= x < |v.data| && x != c :: w.data[x] == v.data[x]
    ensures Sound(g, w, WithChain(cat, c), pend + {c}, hole)
    ensures c !in cat.place && c !in cat.chains && c !in cat.owner && c !in cat.dirs
  {
    hide Homed, Linked, InUse, AllMatch, Dir, EntriesOwn, OwnersAreEntries;
    TableAlloc(g, v.fat, cat, c);
    TreeAlloc(g, cat, pend, hole, c);
    DirsElsewhere(g, cat, v.data, w.data);
    DirsRecorded(w.data, cat, WithChain(cat, c));
  }

  /** The same directories on the same chains read the same. */
  lemma DirsRecorded(data: Data, cat: Catalog, cat': Catalog)
    requires DirsOk(data, cat) && cat'.dirs == cat.dirs && cat'.dirs.Keys <= cat'.chains.Keys
    requires forall d | d in cat.dirs :: d in cat'.chains && cat'.chains[d] == cat.chains[d]
    ensures DirsOk(data, cat')
  {
  }

  lemma SoundExtendFile(g: Geometry, v: View, cat: Catalog, pend: set<nat>, hole: set<Ref>, h: nat, c: nat, w: View)
    requires g.Valid() && Sound(g, v, cat, pend, hole) && h in cat.chains && h !in cat.dirs
    requires g.IsCluster(c) && v.fat[c] == FREE
    requires Fits(g, w) && forall x | 0 <= x < |v.data| && x != c :: w.data[x] == v.data[x]
    requires |cat.chains[h]| > 0 && cat.chains[h][|cat.chains[h]| - 1] < |v.fat|
    requires w.fat == LinkedFat(v.fat, cat.chains[h][|cat.chains[h]| - 1], c)
    ensures Sound(g, w, Extended(cat, h, c), pend, hole)
  {
    hide Homed, Linked, InUse, AllMatch, Dir, LinkedFat, EntriesOwn, OwnersAreEntries;
    TableExtend(g, v.fat, cat, h, c, cat.chains[h][|cat.chains[h]| - 1]);
    TreeExtended(g, cat, pend, hole, h, c);
    DirsElsewhere(g, cat, v.data, w.data);
    DirsRecorded(w.data, cat, Extended(cat, h, c));
  }

  function Lengthened(g: Geometry, cat: Catalog, d: nat, c: nat): Catalog
    requires d in cat.chains && d in cat.dirs
  {
    WithCells(Extended(cat, d, c), d, cat.dirs[d] + UnusedCells(g))
  }

  lemma SoundGrowDir(g: Geometry, v: View, cat: Catalog, pend: set<nat>, hole: set<Ref>, d: nat, p: Placement, w: View)
    requires g.Valid() && Sound(g, v, cat, pend, hole) && d in cat.dirs && p.grown != 0
    requires Placed(g, v, cat.chains[d], cat.dirs[d], p) && w == Grown(g, v, cat.chains[d], p)
    ensures Sound(g, w, Lengthened(g, cat, d, p.grown), pend, hole)
  {
    hide Homed, Linked, InUse, AllMatch, Dir, LinkedFat, EntriesOwn, OwnersAreEntries;
    var c, ch := p.grown, cat.chains[d];
    ChainOf(g, v.fat, cat, d);
    ChainExtended(g, v.fat, ch, c);
    TableExtend(g, v.fat, cat, d, c, ch[|ch| - 1]);
    DirsElsewhere(g, cat, v.data, w.data);
    CellsExtended(g, v, ch, cat.dirs[d], c, w);
    TreeExtended(g, cat, pend, hole, d, c);
    TreeRewrite(g, Extended(cat, d, c), pend, hole, d, cat.dirs[d] + UnusedCells(g));
    LinkedFits(g, v, ch, p);
    var cat' := Lengthened(g, cat, d, c);
    forall e {:trigger cat'.dirs[e]} | e in cat'.dirs
      ensures AllMatch(Dir(w.data, cat'.chains[e]), cat'.dirs[e])
    {
      if e != d {
        assert cat'.dirs[e] == cat.dirs[e] && cat'.chains[e] == cat.chains[e];
      }
    }
  }

  lemma LinkedFits(g: Geometry, v: View, ch: seq<nat>, p: Placement)
    requires g.Valid() && Fits(g, v) && (p.grown == 0 || g.IsCluster(p.grown))
    ensures Fits(g, Grown(g, v, ch, p))
  {
  }

  lemma SoundTouch(g: Geometry, v: View, cat: Catalog, pend: set<nat>, hole: set<Ref>, w: View)
    requires Sound(g, v, cat, pend, hole) && Fits(g, w) && w.fat == v.fat
    requires forall c | c in cat.place && cat.place[c].head in cat.dirs :: c < |v.data| ==> w.data[c] == v.data[c]
    ensures Sound(g, w, cat, pend, hole)
  {
    hide Homed, Linked, InUse, AllMatch, Dir, EntriesOwn, OwnersAreEntries;
    DirsElsewhere(g, cat, v.data, w.data);
  }

  /** Rewriting a directory outside its short entries, or at entries that own nothing any more. */
  lemma SoundRewrite(g: Geometry, v: View, cat: Catalog, pend: set<nat>, hole: set<Ref>, d: nat, cells: seq<Cell>, w: View)
    requires Sound(g, v, cat, pend, hole) && d in cat.dirs
    requires DirState(g, v, cat.chains[d], cells, w) && SameRefs(cat.dirs[d], cells, d, hole)
    ensures Sound(g, w, WithCells(cat, d, cells), pend, hole)
  {
    hide Homed, Linked, InUse, AllMatch, Dir, EntriesOwn, OwnersAreEntries;
    DirsRewrite(g, v, cat, d, cells, w);
    TreeRewrite(g, cat, pend, hole, d, cells);
  }

  /** A hole in the tree closes when its entry is gone. */
  lemma HoleCloses(g: Geometry, v: View, cat: Catalog, pend: set<nat>, r: Ref)
    requires Sound(g, v, cat, pend, {r})
    requires r.dir in cat.dirs && r.idx < |cat.dirs[r.dir]| && !cat.dirs[r.dir][r.idx].Entry83?
    ensures Sound(g, v, cat, pend, {})
  {
    hide Homed, Linked, InUse, AllMatch, Dir, DirsOk;
  }

  lemma SoundDetach(g: Geometry, v: View, cat: Catalog, h: nat)
    requires Sound(g, v, cat, {}, {}) && h in cat.owner && h !in cat.dirs
    ensures Sound(g, v, Detached(cat, h), {h}, {cat.owner[h]})
  {
    hide Homed, Linked, InUse, AllMatch, Dir, EntriesOwn, OwnersAreEntries;
    TreeDetach(g, cat, h);
    DirsRecorded(v.data, cat, Detached(cat, h));
  }

  /** A pending chain is freed. */
  lemma SoundFree(g: Geometry, v: View, cat: Catalog, pend: set<nat>, hole: set<Ref>, h: nat, w: View)
    requires Sound(g, v, cat, pend, hole) && h in pend && h in cat.chains
    requires w.fat == Cleared(v.fat, cat.chains[h]) && w.data == v.data
    ensures Sound(g, w, Without(cat, h), pend - {h}, hole)
  {
    hide Homed, Linked, InUse, AllMatch, Dir, OwnersAreEntries;
    TableFree(g, v.fat, cat, h);
    DirsRecorded(w.data, cat, Without(cat, h));
  }

  lemma SoundAttach(g: Geometry, v: View, cat: Catalog, pend: set<nat>, hole: set<Ref>, d: nat, cells: seq<Cell>,
                    k: nat, sub: map<nat, seq<Cell>>, w: View)
    requires Sound(g, v, cat, pend, hole) && Attachable(g, cat, pend, hole, d, cells, k, sub)
    requires DirState(g, v, cat.chains[d], cells, w)
    requires forall x | x in sub :: x in cat.chains && AllMatch(Dir(w.data, cat.chains[x]), sub[x])
    ensures Sound(g, w, Attached(cat, d, cells, k, cells[k].clus, sub), pend - {cells[k].clus}, {})
  {
    hide Homed, Linked, InUse, AllMatch, Dir, EntriesOwn, OwnersAreEntries, Shape, SameRefs;
    DirsRewrite(g, v, cat, d, cells, w);
    TreeAttach(g, cat, pend, hole, d, cells, k, sub);
    var cat' := Attached(cat, d, cells, k, cells[k].clus, sub);
    assert cat'.dirs.Keys <= cat'.chains.Keys;
    forall e {:trigger cat'.dirs[e]} | e in cat'.dirs
      ensures AllMatch(Dir(w.data, cat'.chains[e]), cat'.dirs[e])
    {
      if e !in sub {
        assert cat'.dirs[e] == WithCells(cat, d, cells).dirs[e];
      }
    }
  }
}

/** Path names, and the place in the directory tree they lead to. */
module Paths {
  import opened Bytes
  import opened Names
  import opened Cells

  type Path = seq<Byte>

  const SLASH: Byte := 47

  /** Where a path leads: the directory of its last component, and that component. */
  datatype Target = Nowhere | Target(dir: nat, name: Name)

  /** The number of characters before the first slash. */
  function Upto(p: Path): (n: nat)
    ensures n <= |p| && (n < |p| ==> p[n] == SLASH)
    ensures forall i {:trigger p[i]} :: 0 <= i < n ==> p[i] != SLASH
  {
    if p == [] || p[0] == SLASH then 0 else 1 + Upto(p[1..])
  }

  lemma {:induction false} UptoIs(p: Path, n: nat)
    requires n <= |p| && (n < |p| ==> p[n] == SLASH) && forall i {:trigger p[i]} :: 0 <= i < n ==> p[i] != SLASH
    ensures Upto(p) == n
  {
    if n > 0 {
      UptoIs(p[1..], n - 1);
    }
  }

  /** The first component, cut to what a name can hold. */
  function Head(p: Path): Name {
    if Upto(p) < MAX_NAME then p[..Upto(p)] else p[..MAX_NAME - 1]
  }

  function Rest(p: Path): (r: Path)
    ensures p != [] ==> |r| < |p|
  {
    if Upto(p) < |p| then p[Upto(p) + 1..] else []
  }

  /** Where the rest `p` of a path leads from directory `dir`. */
  ghost function Resolve(root: nat, dirs: map<nat, seq<Cell>>, dir: nat, p: Path): Target
    decreases |p|
  {
    if p == [] then Target(dir, [])
    else if Rest(p) == [] then Target(dir, Head(p))
    else if dir in dirs && Fold(Head(p)) in Listing(dirs[dir]) && Listing(dirs[dir])[Fold(Head(p))].attr == ATTR_DIR then
      var clus := Listing(dirs[dir])[Fold(Head(p))].clus;
      Resolve(root, dirs, if clus == 0 then root else clus, Rest(p))
    else Nowhere
  }

  ghost function TargetOf(root: nat, dirs: map<nat, seq<Cell>>, path: Path): Target {
    if path == [] || path[0] != SLASH then Nowhere else Resolve(root, dirs, root, path[1..])
  }

  // ---- Where a path leads, component by component ----

  /** The components put together, with a slash before each. */
  function Joined(comps: seq<Path>): Path {
    if comps == [] then [] else [47] + comps[0] + Joined(comps[1..])
  }

  /** The components of a path, as it is written. */
  ghost predicate Spells(comps: seq<Path>, path: Path) {
    && comps != [] && Joined(comps) == path
    && forall i, k {:trigger comps[i][k]} :: 0 <= i < |comps| && 0 <= k < |comps[i]| ==> comps[i][k] != 47
  }

  /** Nothing behind the last one of several slashes does not count as a component. */
  function Counted(comps: seq<Path>): (c: seq<Path>)
    requires comps != []
    ensures c != []
  {
    if |comps| > 1 && comps[|comps| - 1] == [] then comps[..|comps| - 1] else comps
  }

  /** A component as a name: its first 255 bytes. */
  function Cut(comp: Path): Name {
    if |comp| <= 255 then comp else comp[..255]
  }

  /** Directory `d` lists directory `d'` under the name; an entry that gives 0 for its cluster leads to the root. */
  ghost predicate StepsTo(root: nat, dirs: map<nat, seq<Cell>>, d: nat, name: Name, d': nat) {
    && d in dirs
    && exists k {:trigger dirs[d][k]} :: 0 <= k < |dirs[d]| && dirs[d][k].Entry83? && SameName(dirs[d][k].name, name)
         && dirs[d][k].attr == 0x10 && d' == if dirs[d][k].clus == 0 then root else dirs[d][k].clus
  }

  /** The directories one comes through from `d` with the names of the components. */
  ghost predicate Walks(root: nat, dirs: map<nat, seq<Cell>>, d: nat, comps: seq<Path>, walk: seq<nat>) {
    && |walk| == |comps| + 1 && walk[0] == d
    && forall i {:trigger walk[i]} :: 0 <= i < |comps| ==> StepsTo(root, dirs, walk[i], Cut(comps[i]), walk[i + 1])
  }

  /** Walking from directory `d` through all components but the last one ends in directory `last`. */
  ghost predicate EndsIn(root: nat, dirs: map<nat, seq<Cell>>, d: nat, comps: seq<Path>, last: nat)
    requires comps != []
  {
    exists walk {:trigger Walks(root, dirs, d, comps[..|comps| - 1], walk)} ::
      Walks(root, dirs, d, comps[..|comps| - 1], walk) && walk[|comps| - 1] == last
  }

  /** From the root the path leads to `name` in directory `d`. */
  ghost predicate LeadsTo(root: nat, dirs: map<nat, seq<Cell>>, path: Path, d: nat, name: Name) {
    exists comps {:trigger Spells(comps, path)} ::
      Spells(comps, path) && EndsIn(root, dirs, root, Counted(comps), d) && name == Cut(Counted(comps)[|Counted(comps)| - 1])
  }

  /** No directory lists two names that are equal but for case. */
  ghost predicate ListsOnce(dirs: map<nat, seq<Cell>>) {
    forall d {:trigger dirs[d]} :: d in dirs ==> NamesDistinct(dirs[d])
  }

  lemma UptoComponent(comp: Path, more: Path)
    requires SLASH !in comp && (more == [] || more[0] == SLASH)
    ensures comp != [] || more != [] ==> Head(comp + more) == Cut(comp)
    ensures Rest(comp + more) == if more == [] then [] else more[1..]
  {
    var p := comp + more;
    UptoIs(p, |comp|);
    assert p[..|comp|] == comp;
    assert |comp| > 255 ==> p[..255] == comp[..255];
    assert more != [] ==> p[|comp| + 1..] == more[1..];
  }

  /** What a directory lists is what a step finds. */
  lemma StepByListing(root: nat, dirs: map<nat, seq<Cell>>, d: nat, name: Name, d': nat)
    requires ListsOnce(dirs)
    ensures StepsTo(root, dirs, d, name, d') <==>
              && d in dirs && Fold(name) in Listing(dirs[d]) && Listing(dirs[d])[Fold(name)].attr == ATTR_DIR
              && d' == if Listing(dirs[d])[Fold(name)].clus == 0 then root else Listing(dirs[d])[Fold(name)].clus
  {
    hide SameName, Fold, Listing;
    if StepsTo(root, dirs, d, name, d') {
      var k :| 0 <= k < |dirs[d]| && dirs[d][k].Entry83? && SameName(dirs[d][k].name, name)
        && dirs[d][k].attr == 0x10 && d' == if dirs[d][k].clus == 0 then root else dirs[d][k].clus;
      FoldExactly(dirs[d][k].name, name);
      ListingAt(dirs[d], k);
    }
    if d in dirs && Fold(name) in Listing(dirs[d]) {
      var k := Listed(dirs[d], name);
      FoldExactly(dirs[d][k].name, name);
    }
  }

  lemma Listed(cells: seq<Cell>, name: Name) returns (k: nat)
    requires Fold(name) in Listing(cells)
    ensures k < |cells| && Listing(cells)[Fold(name)] == cells[k] && cells[k].Entry83? && Fold(cells[k].name) == Fold(name)
  {
    k := IndexOf(cells, Fold(name));
  }

  lemma EndsAtOnce(root: nat, dirs: map<nat, seq<Cell>>, d: nat, comps: seq<Path>, last: nat)
    requires |comps| == 1
    ensures EndsIn(root, dirs, d, comps, last) <==> last == d
  {
    if last == d {
      assert Walks(root, dirs, d, comps[..0], [d]);
    }
  }

  /** A walk is a first step and the rest of the walk. */
  lemma EndsAfter(root: nat, dirs: map<nat, seq<Cell>>, d: nat, comps: seq<Path>, last: nat)
    requires |comps| > 1
    ensures EndsIn(root, dirs, d, comps, last) <==>
              exists d' {:trigger StepsTo(root, dirs, d, Cut(comps[0]), d')} ::
                StepsTo(root, dirs, d, Cut(comps[0]), d') && EndsIn(root, dirs, d', comps[1..], last)
  {
    hide StepsTo, Cut;
    var front, tail := comps[..|comps| - 1], comps[1..];
    assert tail[..|tail| - 1] == front[1..];
    if EndsIn(root, dirs, d, comps, last) {
      var walk :| Walks(root, dirs, d, front, walk) && walk[|comps| - 1] == last;
      assert StepsTo(root, dirs, walk[0], Cut(front[0]), walk[1]);
      forall i {:trigger walk[1..][i]} | 0 <= i < |front| - 1
        ensures StepsTo(root, dirs, walk[1..][i], Cut(front[1..][i]), walk[1..][i + 1])
      {
        assert StepsTo(root, dirs, walk[i + 1], Cut(front[i + 1]), walk[i + 2]);
      }
      assert Walks(root, dirs, walk[1], front[1..], walk[1..]);
      assert EndsIn(root, dirs, walk[1], tail, last);
    }
    if d': nat :| StepsTo(root, dirs, d, Cut(comps[0]), d') && EndsIn(root, dirs, d', tail, last) {
      var walk :| Walks(root, dirs, d', front[1..], walk) && walk[|tail| - 1] == last;
      WalkLonger(root, dirs, d, front, d', walk);
      assert ([d] + walk)[|comps| - 1] == last;
    }
  }

  lemma WalkLonger(root: nat, dirs: map<nat, seq<Cell>>, d: nat, comps: seq<Path>, d': nat, walk: seq<nat>)
    requires comps != [] && StepsTo(root, dirs, d, Cut(comps[0]), d') && Walks(root, dirs, d', comps[1..], walk)
    ensures Walks(root, dirs, d, comps, [d] + walk)
  {
    hide StepsTo, Cut;
    var longer := [d] + walk;
    forall i {:trigger longer[i]} | 0 <= i < |comps|
      ensures StepsTo(root, dirs, longer[i], Cut(comps[i]), longer[i + 1])
    {
      if i > 0 {
        assert StepsTo(root, dirs, walk[i - 1], Cut(comps[1..][i - 1]), walk[i]);
      }
    }
  }

  lemma JoinedFront(comps: seq<Path>)
    requires comps != []
    ensures |Joined(comps)| > 0 && Joined(comps)[0] == SLASH && Joined(comps)[1..] == comps[0] + Joined(comps[1..])
  {
    assert Joined(comps) == [47] + (comps[0] + Joined(comps[1..]));
  }

  lemma JoinedTail(comps: seq<Path>)
    requires Spells(comps, Joined(comps)) && |comps| > 1
    ensures Spells(comps[1..], Joined(comps[1..]))
    ensures |Joined(comps[1..])| > 0 && Joined(comps[1..])[0] == SLASH
    ensures Joined(comps[1..])[1..] == comps[1..][0] + Joined(comps[1..][1..])
    ensures comps[1..] != [[]] ==> Joined(comps[1..])[1..] != []
  {
    hide Joined;
    var tail := comps[1..];
    forall i, k {:trigger tail[i][k]} | 0 <= i < |tail| && 0 <= k < |tail[i]|
      ensures tail[i][k] != 47
    {
      assert comps[i + 1][k] != 47;
    }
    JoinedFront(tail);
    if |tail| > 1 {
      JoinedFront(tail[1..]);
    } else {
      assert tail == [tail[0]];
    }
  }

  lemma CountedTail(comps: seq<Path>)
    requires |comps| > 1 && comps[1..] != [[]]
    ensures |Counted(comps)| > 1 && Counted(comps)[0] == comps[0] && Counted(comps)[1..] == Counted(comps[1..])
    ensures Counted(comps[1..])[|Counted(comps[1..])| - 1] == Counted(comps)[|Counted(comps)| - 1]
  {
    var tail := comps[1..];
    assert tail[|tail| - 1] == comps[|comps| - 1];
    if |comps| == 2 {
      assert tail == [comps[1]];
    }
  }

  lemma FirstComponent(comps: seq<Path>)
    requires Spells(comps, Joined(comps))
    ensures SLASH !in comps[0]
  {
    forall k | 0 <= k < |comps[0]|
      ensures comps[0][k] != SLASH
    {
      assert comps[0][k] != 47;
    }
  }

  /** Resolving takes the first step and goes on from there. */
  lemma ResolveStep(root: nat, dirs: map<nat, seq<Cell>>, d: nat, comp: Path, more: Path)
    requires ListsOnce(dirs) && SLASH !in comp && more != [] && more[0] == SLASH && more[1..] != []
    ensures forall d' {:trigger StepsTo(root, dirs, d, Cut(comp), d')} :: StepsTo(root, dirs, d, Cut(comp), d') ==>
              Resolve(root, dirs, d, comp + more) == Resolve(root, dirs, d', more[1..])
    ensures Resolve(root, dirs, d, comp + more).Target? ==>
              exists d' {:trigger StepsTo(root, dirs, d, Cut(comp), d')} :: StepsTo(root, dirs, d, Cut(comp), d')
  {
    hide Listing, Fold, Upto, Head, Rest, StepsTo, Cut, ListsOnce;
    UptoComponent(comp, more);
    var n := Fold(Cut(comp));
    forall d': nat | StepsTo(root, dirs, d, Cut(comp), d')
      ensures Resolve(root, dirs, d, comp + more) == Resolve(root, dirs, d', more[1..])
    {
      StepByListing(root, dirs, d, Cut(comp), d');
    }
    if Resolve(root, dirs, d, comp + more).Target? {
      StepByListing(root, dirs, d, Cut(comp), if Listing(dirs[d])[n].clus == 0 then root else Listing(dirs[d])[n].clus);
    }
  }

  /** Resolving goes exactly the way the components say. */
  lemma {:induction false} ResolveWalks(root: nat, dirs: map<nat, seq<Cell>>, d: nat, comps: seq<Path>, t: nat, name: Name)
    requires ListsOnce(dirs) && Spells(comps, Joined(comps))
    ensures Resolve(root, dirs, d, comps[0] + Joined(comps[1..])) == Target(t, name) <==>
              EndsIn(root, dirs, d, Counted(comps), t) && name == Cut(Counted(comps)[|Counted(comps)| - 1])
    decreases |comps|
  {
    hide Listing, Fold, Upto, Head, Rest, Joined, StepsTo, EndsIn, Cut, ListsOnce;
    var more := Joined(comps[1..]);
    FirstComponent(comps);
    if |comps| == 1 || comps[1..] == [[]] {
      assert Counted(comps) == [comps[0]];
      EndsAtOnce(root, dirs, d, Counted(comps), t);
      LastComponent(comps, more);
    } else {
      hide Counted, Resolve;
      JoinedTail(comps);
      CountedTail(comps);
      EndsAfter(root, dirs, d, Counted(comps), t);
      ResolveStep(root, dirs, d, comps[0], more);
      forall d': nat
        ensures Resolve(root, dirs, d', more[1..]) == Target(t, name) <==>
                  EndsIn(root, dirs, d', Counted(comps[1..]), t) && name == Cut(Counted(comps)[|Counted(comps)| - 1])
      {
        ResolveWalks(root, dirs, d', comps[1..], t, name);
      }
    }
  }

  lemma LastComponent(comps: seq<Path>, more: Path)
    requires comps != [] && SLASH !in comps[0] && more == Joined(comps[1..]) && (|comps| == 1 || comps[1..] == [[]])
    ensures comps[0] + more == [] ==> Cut(comps[0]) == []
    ensures comps[0] + more != [] ==> Rest(comps[0] + more) == [] && Head(comps[0] + more) == Cut(comps[0])
  {
    hide Upto, Head, Rest;
    if |comps| > 1 {
      assert comps[1..][1..] == [];
      assert more == [SLASH];
    }
    UptoComponent(comps[0], more);
  }

  /** A path that begins with a slash is spelt by components, in one way. */
  lemma {:induction false} Components(path: Path) returns (comps: seq<Path>)
    requires path != [] && path[0] == SLASH
    ensures Spells(comps, path)
    decreases |path|
  {
    var n := Upto(path[1..]);
    var comp, more := path[1..][..n], path[1 + n..];
    comps := [comp];
    if more != [] {
      var tail := Components(more);
      comps := comps + tail;
      assert comps[1..] == tail;
    } else {
      assert comps[1..] == [];
    }
    forall i, k {:trigger comps[i][k]} | 0 <= i < |comps| && 0 <= k < |comps[i]|
      ensures comps[i][k] != 47
    {
      if i > 0 {
        assert comps[i] == comps[1..][i - 1];
      }
    }
    assert path == [47] + comp + more;
  }

  /** A path leads exactly where its components lead, one directory after the other. */
  lemma PathLeads(root: nat, dirs: map<nat, seq<Cell>>, path: Path, d: nat, name: Name)
    requires ListsOnce(dirs)
    ensures TargetOf(root, dirs, path) == Target(d, name) <==> LeadsTo(root, dirs, path, d, name)
  {
    hide Resolve, EndsIn, Cut, ListsOnce, Counted;
    forall comps | Spells(comps, path)
      ensures path != [] && path[0] == SLASH && path[1..] == comps[0] + Joined(comps[1..])
      ensures Resolve(root, dirs, root, path[1..]) == Target(d, name) <==>
                EndsIn(root, dirs, root, Counted(comps), d) && name == Cut(Counted(comps)[|Counted(comps)| - 1])
    {
      assert path == [47] + (comps[0] + Joined(comps[1..]));
      ResolveWalks(root, dirs, root, comps, d, name);
    }
    if path != [] && path[0] == SLASH {
      var _ := Components(path);
    }
  }

  /** The path names an entry. */
  ghost predicate Present(dirs: map<nat, seq<Cell>>, t: Target) {
    t.Target? && t.name != [] && t.dir in dirs && Fold(t.name) in Listing(dirs[t.dir])
  }

  /** The entry a path names. */
  ghost function Found(dirs: map<nat, seq<Cell>>, t: Target): Cell
    requires Present(dirs, t)
  {
    Listing(dirs[t.dir])[Fold(t.name)]
  }

  /** The two trees have the same subdirectories under the same names, as far as the first one goes. */
  ghost predicate SameSubdirs(dirs: map<nat, seq<Cell>>, dirs': map<nat, seq<Cell>>) {
    forall d, n {:trigger Listing(dirs[d])[n]} :: d in dirs && n in Listing(dirs[d]) && Listing(dirs[d])[n].attr == ATTR_DIR ==>
      d in dirs' && n in Listing(dirs'[d]) && Listing(dirs'[d])[n].attr == ATTR_DIR
      && Listing(dirs'[d])[n].clus == Listing(dirs[d])[n].clus
  }

  /** A path that leads somewhere goes on leading there as long as no directory on the way goes away. */
  lemma {:induction false} ResolveStable(root: nat, dirs: map<nat, seq<Cell>>, dirs': map<nat, seq<Cell>>, dir: nat, p: Path)
    requires SameSubdirs(dirs, dirs') && Resolve(root, dirs, dir, p).Target?
    ensures Resolve(root, dirs', dir, p) == Resolve(root, dirs, dir, p)
    decreases |p|
  {
    hide Listing, Fold;
    if p != [] && Rest(p) != [] {
      var n := Fold(Head(p));
      var _ := Listing(dirs[dir])[n];
      var clus := Listing(dirs[dir])[n].clus;
      ResolveStable(root, dirs, dirs', if clus == 0 then root else clus, Rest(p));
    }
  }

  /** The path of `n` in the directory that the path names. */
  function Below(path: Path, n: Name): Path {
    if path != [] && path[|path| - 1] == 47 then path + n else path + [47] + n
  }

  /** Directory `t.dir` now lists directory `c` under the name. */
  ghost predicate Subdir(dirs: map<nat, seq<Cell>>, t: Target, c: nat) {
    && t.Target? && t.name != [] && t.dir in dirs && Fold(t.name) in Listing(dirs[t.dir])
    && Listing(dirs[t.dir])[Fold(t.name)].attr == ATTR_DIR && Listing(dirs[t.dir])[Fold(t.name)].clus == c && c != 0
  }

  lemma BelowRest(p: Path, n: Name)
    requires p != []
    ensures Head(Below(p, n)) == Head(p)
    ensures Rest(Below(p, n)) == if Rest(p) == [] then n else Below(Rest(p), n)
  {
    hide Head, Rest;
    var u := Upto(p);
    hide Upto;
    var comp, more := p[..u], p[u..];
    assert p == comp + more && SLASH !in comp;
    UptoComponent(comp, more);
    if |more| <= 1 {
      assert more == [] || more == [SLASH];
      BelowLast(comp, more, n);
      UptoComponent(comp, [47] + n);
    } else {
      BelowMore(comp, more[1..], n);
      assert more == [47] + more[1..];
      UptoComponent(comp, [47] + Below(more[1..], n));
    }
  }

  lemma BelowLast(comp: Path, more: Path, n: Name)
    requires SLASH !in comp && comp + more != [] && (more == [] || more == [SLASH])
    ensures Below(comp + more, n) == comp + ([47] + n)
  {
  }

  lemma BelowMore(comp: Path, rest: Path, n: Name)
    requires rest != []
    ensures Below(comp + ([47] + rest), n) == comp + ([47] + Below(rest, n))
  {
    var p := comp + ([47] + rest);
    assert p[|p| - 1] == rest[|rest| - 1];
  }

  /** Once the directory that a path names is there, what is below it is found through it. */
  lemma {:induction false} ResolveBelow(root: nat, dirs: map<nat, seq<Cell>>, dirs': map<nat, seq<Cell>>, dir: nat, p: Path,
                                        n: Name, c: nat)
    requires SameSubdirs(dirs, dirs') && Subdir(dirs', Resolve(root, dirs, dir, p), c)
    requires n != [] && |n| < 256 && SLASH !in n
    ensures Resolve(root, dirs', dir, Below(p, n)) == Target(c, n)
    decreases |p|
  {
    hide Listing, Fold, Upto, Head, Rest, Below;
    BelowRest(p, n);
    BelowLonger(p, n);
    if Rest(p) == [] {
      UptoComponent(n, []);
      assert n + [] == n;
      assert Resolve(root, dirs', c, n) == Target(c, n);
    } else {
      var m := Fold(Head(p));
      var clus := Listing(dirs[dir])[m].clus;
      BelowLonger(Rest(p), n);
      ResolveBelow(root, dirs, dirs', if clus == 0 then root else clus, Rest(p), n, c);
    }
  }

  lemma BelowLonger(p: Path, n: Name)
    requires n != []
    ensures Below(p, n) != []
  {
  }

  lemma TargetBelow(root: nat, dirs: map<nat, seq<Cell>>, dirs': map<nat, seq<Cell>>, path: Path, n: Name, c: nat)
    requires SameSubdirs(dirs, dirs') && Subdir(dirs', TargetOf(root, dirs, path), c)
    requires n != [] && |n| < 256 && SLASH !in n
    ensures TargetOf(root, dirs', Below(path, n)) == Target(c, n)
  {
    hide Listing, Fold, Upto, Head, Rest;
    if path[1..] == [] {
      RootItself(root, dirs);
    } else {
      assert Below(path, n)[1..] == Below(path[1..], n);
      ResolveBelow(root, dirs, dirs', root, path[1..], n, c);
    }
  }

  /** The next component of a path, from position `p` on, and the position behind it. */
  method NextComponent(path: Path, p: nat) returns (comp: Name, next: nat)
    requires p < |path|
    ensures p < next <= |path|
    ensures comp == Head(path[p..]) && path[next..] == Rest(path[p..])
  {
    hide Upto, Head, Rest;
    comp := [];
    next := p;
    while next < |path| && path[next] != SLASH
      invariant p <= next <= |path|
      invariant forall i {:trigger path[i]} :: p <= i < next ==> path[i] != SLASH
      invariant comp == if next - p < MAX_NAME then path[p..next] else path[p..p + MAX_NAME - 1]
    {
      assert path[p..next + 1] == path[p..next] + [path[next]];
      if |comp| < MAX_NAME - 1 {
        comp := comp + [path[next]];
      }
      next := next + 1;
    }
    ComponentDone(path, p, next);
    if next < |path| {
      next := next + 1;
    }
  }

  lemma ComponentDone(path: Path, p: nat, n: nat)
    requires p <= n <= |path| && (n < |path| ==> path[n] == SLASH)
    requires forall i {:trigger path[i]} :: p <= i < n ==> path[i] != SLASH
    ensures Head(path[p..]) == if n - p < MAX_NAME then path[p..n] else path[p..p + MAX_NAME - 1]
    ensures Rest(path[p..]) == if n < |path| then path[n + 1..] else []
  {
    hide Upto;
    UptoIs(path[p..], n - p);
  }

  /** The last two characters are slashes. */
  predicate TwoSlashesLast(p: Path) {
    |p| >= 2 && p[|p| - 1] == SLASH && p[|p| - 2] == SLASH
  }

  /** Two slashes lead to an entry of the root without a name. */
  lemma TwoSlashes(root: nat, dirs: map<nat, seq<Cell>>)
    ensures TargetOf(root, dirs, [SLASH, SLASH]) == Target(root, [])
  {
    assert [SLASH, SLASH][1..] == [SLASH] && [SLASH][1..] == [];
  }

  /** The last component of a path, when nothing comes behind it. */
  lemma LastHead(p: Path)
    requires p != [] && Rest(p) == []
    ensures Head(p) == [] <==> p == [SLASH] || TwoSlashesLast(p)
  {
    var u := Upto(p);
    assert u + 1 < |p| ==> |Rest(p)| > 0;
    assert u > 0 ==> p[u - 1] != SLASH;
  }

  /** Whether a path ends in two slashes shows in what comes behind its first component. */
  lemma RestEnds(p: Path)
    requires p != [] && Rest(p) != []
    ensures TwoSlashesLast(p) <==> Rest(p) == [SLASH] || TwoSlashesLast(Rest(p))
    ensures p != [SLASH]
  {
    var r := Rest(p);
    assert r[|r| - 1] == p[|p| - 1] && (|r| >= 2 ==> r[|r| - 2] == p[|p| - 2]);
    assert |r| == 1 ==> p[|p| - 2] == p[Upto(p)];
  }

  lemma {:induction false} EmptyHead(root: nat, dirs: map<nat, seq<Cell>>, dir: nat, p: Path)
    requires p != [] && Resolve(root, dirs, dir, p).Target?
    ensures Resolve(root, dirs, dir, p).name == [] <==> p == [SLASH] || TwoSlashesLast(p)
    decreases |p|
  {
    hide Listing, Fold, Upto, Head, Rest;
    if Rest(p) == [] {
      LastHead(p);
    } else {
      RestEnds(p);
      var n := Fold(Head(p));
      var clus := Listing(dirs[dir])[n].clus;
      EmptyHead(root, dirs, if clus == 0 then root else clus, Rest(p));
    }
  }

  /** Exactly the paths whose last component is empty lead to an entry without a name: the root's own, and those that end in
      two slashes. */
  lemma EmptyNameExactly(root: nat, dirs: map<nat, seq<Cell>>, path: Path)
    requires TargetOf(root, dirs, path).Target?
    ensures TargetOf(root, dirs, path).name == [] <==> path == [SLASH] || TwoSlashesLast(path)
  {
    hide Resolve;
    if path[1..] == [] {
      assert path == [SLASH];
      RootItself(root, dirs);
    } else {
      EmptyHead(root, dirs, root, path[1..]);
      assert path[1..] == [SLASH] <==> path == [SLASH, SLASH];
    }
  }

  lemma RootItself(root: nat, dirs: map<nat, seq<Cell>>)
    ensures Resolve(root, dirs, root, []).Target? && Resolve(root, dirs, root, []).name == []
  {
  }
}

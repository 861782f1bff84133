/** The reachability marks and the owner table of the checker, on any table: cyclic, shared or dangling. */
module Marks {
  import opened Layout
  import opened Chains
  import opened Names
  import opened Volumes

  /** The place `n` links behind `start`; 0, which is no cluster, behind the last one. */
  function Nth(g: Geometry, fat: seq<nat>, start: nat, n: nat): nat {
    if n == 0 then start
    else
      var p := Nth(g, fat, start, n - 1);
      if g.IsCluster(p) && p < |fat| then fat[p] else 0
  }

  ghost predicate Reachable(g: Geometry, fat: seq<nat>, start: nat, c: nat) {
    g.IsCluster(c) && exists n: nat {:trigger Nth(g, fat, start, n)} :: Nth(g, fat, start, n) == c
  }

  lemma {:induction false} NthEnds(g: Geometry, fat: seq<nat>, start: nat, n: nat, m: nat)
    requires !g.IsCluster(Nth(g, fat, start, n)) && n <= m
    ensures !g.IsCluster(Nth(g, fat, start, m))
    decreases m
  {
    if n < m {
      NthEnds(g, fat, start, n, m - 1);
    }
  }

  lemma {:induction false} NthShift(g: Geometry, fat: seq<nat>, start: nat, i: nat, j: nat, m: nat)
    requires Nth(g, fat, start, i) == Nth(g, fat, start, j)
    ensures Nth(g, fat, start, i + m) == Nth(g, fat, start, j + m)
  {
    if m > 0 {
      NthShift(g, fat, start, i, j, m - 1);
    }
  }

  /** A walk never takes more steps than there are clusters to reach what it reaches at all. */
  lemma {:induction false} ReachedEarly(g: Geometry, fat: seq<nat>, start: nat, n: nat) returns (i: nat)
    requires g.IsCluster(Nth(g, fat, start, n))
    ensures i < g.totalClusters && i <= n && Nth(g, fat, start, i) == Nth(g, fat, start, n)
    decreases n
  {
    if n < g.totalClusters {
      i := n;
    } else {
      var walk := seq(n + 1, k requires 0 <= k <= n => Nth(g, fat, start, k));
      forall k: nat | k <= n
        ensures g.IsCluster(Nth(g, fat, start, k))
      {
        if !g.IsCluster(Nth(g, fat, start, k)) {
          NthEnds(g, fat, start, k, n);
        }
      }
      TooLong(g.totalClusters, walk);
      var a, b :| 0 <= a < b < |walk| && walk[a] == walk[b];
      NthShift(g, fat, start, a, b, n - b);
      i := ReachedEarly(g, fat, start, n - (b - a));
    }
  }

  /** A sequence of more clusters than there are names one of them twice. */
  lemma TooLong(n: nat, walk: seq<nat>)
    requires |walk| > n && forall k {:trigger walk[k]} :: 0 <= k < |walk| ==> 2 <= walk[k] < n + 2
    ensures exists a, b {:trigger walk[a], walk[b]} :: 0 <= a < b < |walk| && walk[a] == walk[b]
  {
    if Distinct(walk) {
      MembersCount(walk);
      SubsetSize(Members(walk), Range(n));
    }
  }

  /** What is reached at all is reached in the first steps, as many as there are clusters. */
  lemma ReachedInBounds(g: Geometry, fat: seq<nat>, start: nat, c: nat)
    requires Reachable(g, fat, start, c)
    ensures exists i: nat {:trigger Nth(g, fat, start, i)} :: i < g.totalClusters && Nth(g, fat, start, i) == c
  {
    var n: nat :| Nth(g, fat, start, n) == c;
    var i := ReachedEarly(g, fat, start, n);
  }

  /** From a cluster on, a walk that came back to an earlier place visits nothing new. */
  lemma {:induction false} NothingNew(g: Geometry, fat: seq<nat>, start: nat, i: nat, n: nat, m: nat) returns (j: nat)
    requires i < n && Nth(g, fat, start, i) == Nth(g, fat, start, n)
    ensures j < n && Nth(g, fat, start, j) == Nth(g, fat, start, m)
    decreases m
  {
    if m < n {
      j := m;
    } else {
      NthShift(g, fat, start, i, n, m - n);
      j := NothingNew(g, fat, start, i, n, i + (m - n));
    }
  }

  /** A chain is walked cluster by cluster, and no further. */
  lemma {:induction false} NthInChain(g: Geometry, fat: seq<nat>, ch: seq<nat>, n: nat)
    requires g.Valid() && IsChain(g, fat, ch)
    ensures if n < |ch| then Nth(g, fat, ch[0], n) == ch[n] else !g.IsCluster(Nth(g, fat, ch[0], n))
  {
    if n > 0 {
      NthInChain(g, fat, ch, n - 1);
      if n <= |ch| {
        assert fat[ch[n - 1]] == Nth(g, fat, ch[0], n);
      }
    }
  }

  /** The clusters reachable from the head of a chain are its clusters. */
  lemma ReachableInChain(g: Geometry, fat: seq<nat>, ch: seq<nat>, c: nat)
    requires g.Valid() && IsChain(g, fat, ch)
    ensures Reachable(g, fat, ch[0], c) <==> c in ch
  {
    if c in ch {
      var i :| 0 <= i < |ch| && ch[i] == c;
      NthInChain(g, fat, ch, i);
    }
    if Reachable(g, fat, ch[0], c) {
      var n: nat :| Nth(g, fat, ch[0], n) == c;
      NthInChain(g, fat, ch, n);
    }
  }

  // ---- Marking ----

  datatype ClusRef = ClusRef(cluster: nat, entry: nat, claimed: bool)

  predicate IsMarked(reach: seq<bool>, c: nat) {
    2 <= c < |reach| + 2 && reach[c - 2]
  }

  predicate HasKey(refs: seq<ClusRef>, c: nat, dir: nat, entry: nat) {
    2 <= c < |refs| + 2 && refs[c - 2].cluster == dir && refs[c - 2].entry == entry
  }

  /** No marked cluster carries the key. */
  ghost predicate FreshKey(reach: seq<bool>, refs: seq<ClusRef>, dir: nat, entry: nat) {
    forall c: nat {:trigger IsMarked(reach, c)} :: IsMarked(reach, c) ==> !HasKey(refs, c, dir, entry)
  }

  /** Nothing reachable from `start` is marked yet. */
  ghost predicate Untouched(g: Geometry, fat: seq<nat>, start: nat, reach: seq<bool>) {
    forall c: nat {:trigger IsMarked(reach, c)} :: IsMarked(reach, c) ==> !Reachable(g, fat, start, c)
  }

  /** Everything reachable from `start` is marked and carries the key. */
  ghost predicate AllClaimed(g: Geometry, fat: seq<nat>, start: nat, reach: seq<bool>, refs: seq<ClusRef>, dir: nat, entry: nat) {
    forall c: nat {:trigger IsMarked(reach, c)} {:trigger HasKey(refs, c, dir, entry)} :: Reachable(g, fat, start, c) ==>
      IsMarked(reach, c) && HasKey(refs, c, dir, entry)
  }

  /** The cluster is among the first `n` places of the walk. */
  ghost predicate InWalk(g: Geometry, fat: seq<nat>, start: nat, n: nat, c: nat) {
    exists i: nat {:trigger Nth(g, fat, start, i)} :: i < n && Nth(g, fat, start, i) == c
  }

  lemma InWalkNext(g: Geometry, fat: seq<nat>, start: nat, n: nat)
    ensures forall c: nat {:trigger InWalk(g, fat, start, n + 1, c)} {:trigger InWalk(g, fat, start, n, c)} ::
              InWalk(g, fat, start, n + 1, c) <==> InWalk(g, fat, start, n, c) || c == Nth(g, fat, start, n)
  {
    hide Nth;
  }

  /** The first `n` places of the walk from `start` were claimed, and nothing else changed. */
  ghost predicate ClaimedUpTo(g: Geometry, fat: seq<nat>, start: nat, n: nat, dir: nat, entry: nat,
                              reach0: seq<bool>, refs0: seq<ClusRef>, reach: seq<bool>, refs: seq<ClusRef>) {
    && |reach| == |reach0| == |refs| == |refs0| == g.totalClusters
    && (forall c: nat {:trigger InWalk(g, fat, start, n, c)} :: InWalk(g, fat, start, n, c) ==> g.IsCluster(c))
    && (forall c: nat {:trigger InWalk(g, fat, start, n, c)} {:trigger IsMarked(reach, c)} {:trigger IsMarked(reach0, c)} ::
          g.IsCluster(c) ==>
            if InWalk(g, fat, start, n, c) then IsMarked(reach, c) && HasKey(refs, c, dir, entry)
            else IsMarked(reach, c) == IsMarked(reach0, c) && refs[c - 2] == refs0[c - 2])
  }

  /** One more place claimed. */
  lemma ClaimStep(g: Geometry, fat: seq<nat>, start: nat, n: nat, dir: nat, entry: nat,
                  reach0: seq<bool>, refs0: seq<ClusRef>, reach: seq<bool>, refs: seq<ClusRef>, r: ClusRef)
    requires ClaimedUpTo(g, fat, start, n, dir, entry, reach0, refs0, reach, refs)
    requires g.IsCluster(Nth(g, fat, start, n)) && r.cluster == dir && r.entry == entry
    ensures var idx := Nth(g, fat, start, n) - 2;
      ClaimedUpTo(g, fat, start, n + 1, dir, entry, reach0, refs0, reach[idx := true], refs[idx := r])
  {
    hide Nth, InWalk;
    InWalkNext(g, fat, start, n);
    var x := Nth(g, fat, start, n);
    var reach', refs' := reach[x - 2 := true], refs[x - 2 := r];
    forall c: nat | g.IsCluster(c)
      ensures if c == x then IsMarked(reach', c) && HasKey(refs', c, dir, entry)
              else IsMarked(reach', c) == IsMarked(reach, c) && refs'[c - 2] == refs[c - 2]
    {
    }
  }

  /** Everything reachable is among the first `n` places of the walk. */
  ghost predicate VisitedAll(g: Geometry, fat: seq<nat>, start: nat, n: nat) {
    forall c: nat {:trigger Reachable(g, fat, start, c)} {:trigger InWalk(g, fat, start, n, c)} ::
      Reachable(g, fat, start, c) ==> InWalk(g, fat, start, n, c)
  }

  /** The walk is over at the end of the chain, after as many steps as there are clusters, or back at a place it was. */
  lemma WalkOver(g: Geometry, fat: seq<nat>, start: nat, n: nat)
    requires !g.IsCluster(Nth(g, fat, start, n)) || n >= g.totalClusters || InWalk(g, fat, start, n, Nth(g, fat, start, n))
    ensures VisitedAll(g, fat, start, n)
  {
    hide Nth;
    forall c: nat | Reachable(g, fat, start, c)
      ensures InWalk(g, fat, start, n, c)
    {
      if n >= g.totalClusters {
        ReachedInBounds(g, fat, start, c);
      } else {
        var m: nat :| Nth(g, fat, start, m) == c;
        if !g.IsCluster(Nth(g, fat, start, n)) {
          if n <= m {
            NthEnds(g, fat, start, n, m);
          }
        } else {
          var i: nat :| i < n && Nth(g, fat, start, i) == Nth(g, fat, start, n);
          var _ := NothingNew(g, fat, start, i, n, m);
        }
      }
    }
  }

  lemma WalkReaches(g: Geometry, fat: seq<nat>, start: nat, n: nat, c: nat)
    ensures g.IsCluster(c) && InWalk(g, fat, start, n, c) ==> Reachable(g, fat, start, c)
    ensures g.IsCluster(Nth(g, fat, start, n)) ==> Reachable(g, fat, start, Nth(g, fat, start, n))
  {
    hide Nth;
  }

  lemma AllVisitedClaimed(g: Geometry, fat: seq<nat>, start: nat, n: nat, dir: nat, entry: nat,
                          reach0: seq<bool>, refs0: seq<ClusRef>, reach: seq<bool>, refs: seq<ClusRef>)
    requires ClaimedUpTo(g, fat, start, n, dir, entry, reach0, refs0, reach, refs)
    ensures VisitedAll(g, fat, start, n) ==> AllClaimed(g, fat, start, reach, refs, dir, entry)
    ensures forall c: nat {:trigger IsMarked(reach, c)} :: IsMarked(reach0, c) ==> IsMarked(reach, c)
    ensures forall c: nat {:trigger IsMarked(reach, c)} :: IsMarked(reach, c) ==>
              IsMarked(reach0, c) || (Reachable(g, fat, start, c) && HasKey(refs, c, dir, entry))
    ensures forall c: nat {:trigger IsMarked(reach0, c)} :: IsMarked(reach0, c) ==>
              refs[c - 2] == refs0[c - 2] || (Reachable(g, fat, start, c) && HasKey(refs, c, dir, entry))
  {
    hide Nth, InWalk, Reachable;
    forall c: nat | g.IsCluster(c)
      ensures InWalk(g, fat, start, n, c) ==> Reachable(g, fat, start, c)
    {
      WalkReaches(g, fat, start, n, c);
    }
    forall c: nat | Reachable(g, fat, start, c)
      ensures g.IsCluster(c)
    {
      ReachableIsCluster(g, fat, start, c);
    }
  }

  lemma ReachableIsCluster(g: Geometry, fat: seq<nat>, start: nat, c: nat)
    requires Reachable(g, fat, start, c)
    ensures g.IsCluster(c)
  {
  }

  /** None of the places claimed so far was marked before. */
  ghost predicate NewGround(g: Geometry, fat: seq<nat>, start: nat, n: nat, reach0: seq<bool>) {
    forall c: nat {:trigger InWalk(g, fat, start, n, c)} {:trigger IsMarked(reach0, c)} ::
      InWalk(g, fat, start, n, c) ==> !IsMarked(reach0, c)
  }

  lemma NewGroundOnly(g: Geometry, fat: seq<nat>, start: nat, n: nat, dir: nat, entry: nat,
                      reach0: seq<bool>, refs0: seq<ClusRef>, reach: seq<bool>, refs: seq<ClusRef>)
    requires ClaimedUpTo(g, fat, start, n, dir, entry, reach0, refs0, reach, refs) && NewGround(g, fat, start, n, reach0)
    ensures forall c: nat {:trigger IsMarked(reach0, c)} :: IsMarked(reach0, c) ==> refs[c - 2] == refs0[c - 2]
    ensures VisitedAll(g, fat, start, n) ==> Untouched(g, fat, start, reach0)
  {
    hide Nth, InWalk, Reachable;
  }

  /** What it means to run into a mark: a place of this walk, or a cluster that was marked before. */
  /** The first marked cluster on the walk, if there is one, belongs to another entry. */
  ghost predicate Stumbles(g: Geometry, fat: seq<nat>, start: nat, reach: seq<bool>, refs: seq<ClusRef>, dir: nat, entry: nat) {
    exists n: nat {:trigger Nth(g, fat, start, n)} ::
      && IsMarked(reach, Nth(g, fat, start, n)) && !HasKey(refs, Nth(g, fat, start, n), dir, entry)
      && NewGround(g, fat, start, n, reach)
  }

  lemma RanInto(g: Geometry, fat: seq<nat>, start: nat, n: nat, dir: nat, entry: nat,
                reach0: seq<bool>, refs0: seq<ClusRef>, reach: seq<bool>, refs: seq<ClusRef>)
    requires ClaimedUpTo(g, fat, start, n, dir, entry, reach0, refs0, reach, refs) && NewGround(g, fat, start, n, reach0)
    requires IsMarked(reach, Nth(g, fat, start, n))
    ensures var c := Nth(g, fat, start, n);
      if IsMarked(reach0, c) then
        refs[c - 2] == refs0[c - 2] && !Untouched(g, fat, start, reach0)
        && (HasKey(refs, c, dir, entry) ==> !FreshKey(reach0, refs0, dir, entry))
      else HasKey(refs, c, dir, entry) && VisitedAll(g, fat, start, n)
    ensures !HasKey(refs, Nth(g, fat, start, n), dir, entry) ==> Stumbles(g, fat, start, reach0, refs0, dir, entry)
  {
    hide Nth, InWalk, Reachable;
    var c := Nth(g, fat, start, n);
    WalkReaches(g, fat, start, n, c);
    if !IsMarked(reach0, c) {
      assert InWalk(g, fat, start, n, c);
      WalkOver(g, fat, start, n);
    }
  }

  lemma InWalkAt(g: Geometry, fat: seq<nat>, start: nat, n: nat, m: nat)
    ensures m < n ==> InWalk(g, fat, start, n, Nth(g, fat, start, m))
  {
    hide Nth;
  }

  lemma NoStumble(g: Geometry, fat: seq<nat>, start: nat, n: nat, reach: seq<bool>, refs: seq<ClusRef>, dir: nat, entry: nat)
    requires |reach| == g.totalClusters && NewGround(g, fat, start, n, reach)
    requires VisitedAll(g, fat, start, n)
             || (IsMarked(reach, Nth(g, fat, start, n)) && HasKey(refs, Nth(g, fat, start, n), dir, entry))
    ensures !Stumbles(g, fat, start, reach, refs, dir, entry)
  {
    hide Nth;
    forall m: nat | IsMarked(reach, Nth(g, fat, start, m)) && NewGround(g, fat, start, m, reach)
      ensures HasKey(refs, Nth(g, fat, start, m), dir, entry)
    {
      WalkReaches(g, fat, start, m, 0);
      InWalkAt(g, fat, start, n, m);
      InWalkAt(g, fat, start, m, n);
    }
  }

  /** Claims the chain from `start` for an entry: `crosslinks` is 1 when it ran into a cluster of another entry, where
      it stops.  A directory claiming its own chain passes over earlier claims. */
  method MarkChain(vol: Volume, reach: array<bool>, refs: array<ClusRef>, start: nat, dirCluster: nat, entryIdx: nat)
    returns (crosslinks: nat)
    requires vol.Valid() && reach.Length == refs.Length == vol.g.totalClusters
    modifies vol`cacheDirty, vol`cacheLba, vol.cache, vol.disk, vol.disk.sectors, reach, refs
    ensures vol.Valid() && crosslinks <= 1 && vol.disk.sectors[..] == old(vol.disk.sectors[..])
    ensures forall c: nat {:trigger IsMarked(reach[..], c)} :: IsMarked(old(reach[..]), c) ==> IsMarked(reach[..], c)
    ensures forall c: nat {:trigger IsMarked(reach[..], c)} :: IsMarked(reach[..], c) ==>
              IsMarked(old(reach[..]), c) || (Reachable(vol.g, vol.view.fat, start, c) && HasKey(refs[..], c, dirCluster, entryIdx))
    ensures forall c: nat {:trigger IsMarked(old(reach[..]), c)} :: IsMarked(old(reach[..]), c) ==>
              refs[c - 2] == old(refs[..])[c - 2]
              || (start == dirCluster && Reachable(vol.g, vol.view.fat, start, c) && HasKey(refs[..], c, dirCluster, entryIdx))
    ensures start == dirCluster ==>
              crosslinks == 0 && AllClaimed(vol.g, vol.view.fat, start, reach[..], refs[..], dirCluster, entryIdx)
    ensures start != dirCluster && Untouched(vol.g, vol.view.fat, start, old(reach[..])) ==>
              crosslinks == 0 && AllClaimed(vol.g, vol.view.fat, start, reach[..], refs[..], dirCluster, entryIdx)
    ensures start != dirCluster ==>
              (crosslinks == 1 <==>
                 Stumbles(vol.g, vol.view.fat, start, old(reach[..]), old(refs[..]), dirCluster, entryIdx))
    ensures start != dirCluster && crosslinks == 0 && FreshKey(old(reach[..]), old(refs[..]), dirCluster, entryIdx) ==>
              Untouched(vol.g, vol.view.fat, start, old(reach[..]))
  {
    hide Sees, Mirrored, Volume.HistoryIsTrace, NewGround, Untouched, AllClaimed, FreshKey, VisitedAll, InWalk, Reachable, Stumbles;
    ghost var g, fat := vol.g, vol.view.fat;
    ghost var reach0, refs0 := reach[..], refs[..];
    ClaimStart(g, fat, start, dirCluster, entryIdx, reach0, refs0);
    var c := start;
    var guard := 0;
    crosslinks := 0;
    while vol.g.IsCluster(c) && guard < vol.g.totalClusters
      invariant vol.Valid() && crosslinks == 0 && guard <= vol.g.totalClusters
      invariant vol.disk.sectors[..] == old(vol.disk.sectors[..])
      invariant c == Nth(g, fat, start, guard)
      invariant ClaimedUpTo(g, fat, start, guard, dirCluster, entryIdx, reach0, refs0, reach[..], refs[..])
      invariant start != dirCluster ==> NewGround(g, fat, start, guard, reach0)
      decreases vol.g.totalClusters - guard
    {
      var idx := c - 2;
      if reach[idx] {
        if start == dirCluster {
          ClaimStep(g, fat, start, guard, dirCluster, entryIdx, reach0, refs0, reach[..], refs[..],
                    refs[idx].(cluster := dirCluster, entry := entryIdx));
          refs[idx] := refs[idx].(cluster := dirCluster, entry := entryIdx);
        } else {
          RanInto(g, fat, start, guard, dirCluster, entryIdx, reach0, refs0, reach[..], refs[..]);
          if refs[idx].cluster != dirCluster || refs[idx].entry != entryIdx {
            crosslinks := crosslinks + 1;
          } else {
            NoStumble(g, fat, start, guard, reach0, refs0, dirCluster, entryIdx);
          }
          break;
        }
      } else {
        ClaimStep(g, fat, start, guard, dirCluster, entryIdx, reach0, refs0, reach[..], refs[..],
                  ClusRef(dirCluster, entryIdx, true));
        NewGroundStep(g, fat, start, guard, dirCluster, entryIdx, reach0, refs0, reach[..], refs[..]);
        reach[idx] := true;
        refs[idx] := ClusRef(dirCluster, entryIdx, true);
      }
      var next := vol.FatGet(c);
      c := next;
      guard := guard + 1;
    }
    if !vol.g.IsCluster(c) || guard >= vol.g.totalClusters {
      WalkOver(g, fat, start, guard);
      if start != dirCluster {
        NoStumble(g, fat, start, guard, reach0, refs0, dirCluster, entryIdx);
      }
    }
    AllVisitedClaimed(g, fat, start, guard, dirCluster, entryIdx, reach0, refs0, reach[..], refs[..]);
    if start != dirCluster {
      NewGroundOnly(g, fat, start, guard, dirCluster, entryIdx, reach0, refs0, reach[..], refs[..]);
    }
  }

  lemma ClaimStart(g: Geometry, fat: seq<nat>, start: nat, dir: nat, entry: nat, reach: seq<bool>, refs: seq<ClusRef>)
    requires |reach| == |refs| == g.totalClusters
    ensures ClaimedUpTo(g, fat, start, 0, dir, entry, reach, refs, reach, refs)
    ensures NewGround(g, fat, start, 0, reach)
  {
  }

  lemma NewGroundStep(g: Geometry, fat: seq<nat>, start: nat, n: nat, dir: nat, entry: nat,
                      reach0: seq<bool>, refs0: seq<ClusRef>, reach: seq<bool>, refs: seq<ClusRef>)
    requires ClaimedUpTo(g, fat, start, n, dir, entry, reach0, refs0, reach, refs)
    requires g.IsCluster(Nth(g, fat, start, n)) && !IsMarked(reach, Nth(g, fat, start, n))
    ensures NewGround(g, fat, start, n, reach0) ==> NewGround(g, fat, start, n + 1, reach0)
  {
    hide Nth, InWalk;
    InWalkNext(g, fat, start, n);
  }

  // ---- Runs of the marker ----

  /** One call of the marker.  A directory claims its own chain, an entry the chain it begins; an entry that begins where
      its directory begins is taken for the directory. */
  datatype Claim = Claim(start: nat, dir: nat, entry: nat)
  {
    predicate OfDir() {
      start == dir
    }

    predicate SameKey(other: Claim) {
      dir == other.dir && entry == other.entry
    }
  }

  /** The claim is an entry's, and none with its key came before. */
  ghost predicate FirstClaim(claims: seq<Claim>, i: nat)
    requires i < |claims|
  {
    !claims[i].OfDir() && forall k {:trigger claims[k]} :: 0 <= k < i ==> !claims[k].SameKey(claims[i])
  }

  /** Every mark carries the key of one of the first `n` claims. */
  ghost predicate KeysFrom(claims: seq<Claim>, n: nat, reach: seq<bool>, refs: seq<ClusRef>)
    requires n <= |claims|
  {
    forall c: nat {:trigger IsMarked(reach, c)} :: IsMarked(reach, c) ==>
      exists i {:trigger claims[i]} :: 0 <= i < n && HasKey(refs, c, claims[i].dir, claims[i].entry)
  }

  /** A directory claimed the cluster later on. */
  ghost predicate TakenBack(g: Geometry, fat: seq<nat>, claims: seq<Claim>, i: nat, n: nat, c: nat)
    requires n <= |claims|
  {
    exists j {:trigger claims[j]} :: i < j < n && claims[j].OfDir() && Reachable(g, fat, claims[j].start, c)
  }

  /** The entry has its whole chain: all of it is marked, and is its own but for what a directory claimed later. */
  ghost predicate OwnsAll(g: Geometry, fat: seq<nat>, claims: seq<Claim>, i: nat, n: nat, reach: seq<bool>, refs: seq<ClusRef>)
    requires i < n <= |claims|
  {
    forall c: nat {:trigger IsMarked(reach, c)} {:trigger Reachable(g, fat, claims[i].start, c)} ::
      Reachable(g, fat, claims[i].start, c) ==>
        IsMarked(reach, c)
        && (HasKey(refs, c, claims[i].dir, claims[i].entry) || TakenBack(g, fat, claims, i, n, c))
  }

  /** What the checker finds on any table, over any run of claims: an entry whose first claim raises no cross-link owns its
      whole chain, and shares it with no other such entry.  Entries may begin anywhere, and directories may be walked any
      number of times, as it happens on damaged trees. */
  method ClaimAll(vol: Volume, reach: array<bool>, refs: array<ClusRef>, claims: seq<Claim>) returns (crossed: seq<bool>)
    requires vol.Valid() && reach.Length == refs.Length == vol.g.totalClusters
    requires forall i | 0 <= i < reach.Length :: !reach[i]
    modifies vol`cacheDirty, vol`cacheLba, vol.cache, vol.disk, vol.disk.sectors, reach, refs
    ensures vol.Valid() && |crossed| == |claims|
    ensures forall i {:trigger crossed[i]} :: 0 <= i < |claims| && FirstClaim(claims, i) && !crossed[i] ==>
              OwnsAll(vol.g, vol.view.fat, claims, i, |claims|, reach[..], refs[..])
    ensures ClaimsApart(vol.g, vol.view.fat, claims, crossed)
  {
    hide Sees, Mirrored, Volume.HistoryIsTrace, OwnsAll, Apart, FirstClaim, Stumbles, AllClaimed, FreshKey, Untouched;
    hide KeysFrom, Reachable;
    crossed := [];
    NoMarksYet(claims, reach[..], refs[..]);
    while |crossed| < |claims|
      invariant |crossed| <= |claims| && vol.Valid()
      invariant KeysFrom(claims, |crossed|, reach[..], refs[..])
      invariant forall i {:trigger crossed[i]} :: 0 <= i < |crossed| && FirstClaim(claims, i) && !crossed[i] ==>
                  OwnsAll(vol.g, vol.view.fat, claims, i, |crossed|, reach[..], refs[..])
      invariant ClaimsApart(vol.g, vol.view.fat, claims, crossed)
    {
      var n := |crossed|;
      var claim := claims[n];
      ghost var reach0, refs0 := reach[..], refs[..];
      FreshClaim(claims, n, reach0, refs0);
      var crosslinks := MarkChain(vol, reach, refs, claim.start, claim.dir, claim.entry);
      ClaimMade(vol.g, vol.view.fat, claims, n, crosslinks, reach0, refs0, reach[..], refs[..]);
      forall i {:trigger crossed[i]} | 0 <= i < n && FirstClaim(claims, i) && !crossed[i]
        ensures OwnsAll(vol.g, vol.view.fat, claims, i, n + 1, reach[..], refs[..])
        ensures FirstClaim(claims, n) && crosslinks == 0 ==> Apart(vol.g, vol.view.fat, claims[i].start, claim.start)
      {
        EarlierClaim(vol.g, vol.view.fat, claims, i, n, crosslinks, reach0, refs0, reach[..], refs[..]);
      }
      crossed := crossed + [crosslinks > 0];
    }
  }

  /** No cluster is reachable from both. */
  ghost predicate Apart(g: Geometry, fat: seq<nat>, a: nat, b: nat) {
    forall c: nat {:trigger Reachable(g, fat, a, c)} {:trigger Reachable(g, fat, b, c)} ::
      !(Reachable(g, fat, a, c) && Reachable(g, fat, b, c))
  }

  lemma NoMarksYet(claims: seq<Claim>, reach: seq<bool>, refs: seq<ClusRef>)
    requires forall i {:trigger reach[i]} :: 0 <= i < |reach| ==> !reach[i]
    ensures KeysFrom(claims, 0, reach, refs)
  {
  }

  /** No cluster is shared between entries whose first claims raised no cross-link. */
  ghost predicate ClaimsApart(g: Geometry, fat: seq<nat>, claims: seq<Claim>, crossed: seq<bool>) {
    forall i, j {:trigger crossed[i], crossed[j]} ::
      0 <= i < j < |claims| && j < |crossed| && FirstClaim(claims, i) && FirstClaim(claims, j) && !crossed[i] && !crossed[j] ==>
        Apart(g, fat, claims[i].start, claims[j].start)
  }

  /** The entry never raised a cross-link, and begins at the same cluster whenever it is met. */
  ghost predicate NeverCrossed(claims: seq<Claim>, crossed: seq<bool>, claim: Claim)
    requires |crossed| == |claims|
  {
    forall k {:trigger claims[k]} :: 0 <= k < |claims| && claims[k].SameKey(claim) ==> claims[k].start == claim.start && !crossed[k]
  }

  lemma {:induction false} FirstOfKey(claims: seq<Claim>, i: nat) returns (k: nat)
    requires i < |claims|
    ensures k <= i && claims[k].SameKey(claims[i])
    ensures forall m {:trigger claims[m]} :: 0 <= m < k ==> !claims[m].SameKey(claims[i])
  {
    k := 0;
    while !claims[k].SameKey(claims[i])
      invariant k <= i && forall m {:trigger claims[m]} :: 0 <= m < k ==> !claims[m].SameKey(claims[i])
      decreases i - k
    {
      k := k + 1;
    }
  }

  /** Any two different entries for which no cross-link was ever raised share no cluster. */
  lemma EntriesApart(g: Geometry, fat: seq<nat>, claims: seq<Claim>, crossed: seq<bool>, i: nat, j: nat)
    requires |crossed| == |claims| && i < |claims| && j < |claims| && ClaimsApart(g, fat, claims, crossed)
    requires !claims[i].OfDir() && !claims[j].OfDir() && !claims[i].SameKey(claims[j])
    requires NeverCrossed(claims, crossed, claims[i]) && NeverCrossed(claims, crossed, claims[j])
    ensures Apart(g, fat, claims[i].start, claims[j].start)
  {
    hide Apart;
    var a := FirstOfKey(claims, i);
    var b := FirstOfKey(claims, j);
    assert FirstClaim(claims, a) && FirstClaim(claims, b);
    assert !crossed[a] && !crossed[b];
    if b < a {
      ApartBothWays(g, fat, claims[b].start, claims[a].start);
    }
  }

  lemma ApartBothWays(g: Geometry, fat: seq<nat>, a: nat, b: nat)
    requires Apart(g, fat, a, b)
    ensures Apart(g, fat, b, a)
  {
  }

  /** An entry's key is new when its first claim comes. */
  lemma FreshClaim(claims: seq<Claim>, n: nat, reach: seq<bool>, refs: seq<ClusRef>)
    requires n < |claims| && KeysFrom(claims, n, reach, refs)
    ensures FirstClaim(claims, n) ==> FreshKey(reach, refs, claims[n].dir, claims[n].entry)
  {
    if FirstClaim(claims, n) {
      forall c: nat | IsMarked(reach, c)
        ensures !HasKey(refs, c, claims[n].dir, claims[n].entry)
      {
        var i :| 0 <= i < n && HasKey(refs, c, claims[i].dir, claims[i].entry);
        assert !claims[i].SameKey(claims[n]);
      }
    }
  }

  /** What one call of the marker did, in the terms of its contract. */
  ghost predicate Marked(g: Geometry, fat: seq<nat>, claim: Claim, crosslinks: nat,
                         reach0: seq<bool>, refs0: seq<ClusRef>, reach: seq<bool>, refs: seq<ClusRef>) {
    && |reach0| == |refs0| == |reach| == |refs|
    && (forall c: nat {:trigger IsMarked(reach, c)} {:trigger IsMarked(reach0, c)} :: IsMarked(reach0, c) ==> IsMarked(reach, c))
    && (forall c: nat {:trigger IsMarked(reach, c)} :: IsMarked(reach, c) ==>
          IsMarked(reach0, c) || (Reachable(g, fat, claim.start, c) && HasKey(refs, c, claim.dir, claim.entry)))
    && (forall c: nat {:trigger IsMarked(reach0, c)} :: IsMarked(reach0, c) ==>
          refs[c - 2] == refs0[c - 2]
          || (claim.start == claim.dir && Reachable(g, fat, claim.start, c) && HasKey(refs, c, claim.dir, claim.entry)))
    && (!claim.OfDir() && crosslinks == 0 && FreshKey(reach0, refs0, claim.dir, claim.entry) ==>
          Untouched(g, fat, claim.start, reach0) && AllClaimed(g, fat, claim.start, reach, refs, claim.dir, claim.entry))
  }

  lemma ClaimMade(g: Geometry, fat: seq<nat>, claims: seq<Claim>, n: nat, crosslinks: nat,
                  reach0: seq<bool>, refs0: seq<ClusRef>, reach: seq<bool>, refs: seq<ClusRef>)
    requires n < |claims| && Marked(g, fat, claims[n], crosslinks, reach0, refs0, reach, refs)
    requires KeysFrom(claims, n, reach0, refs0)
    requires FirstClaim(claims, n) ==> FreshKey(reach0, refs0, claims[n].dir, claims[n].entry)
    ensures KeysFrom(claims, n + 1, reach, refs)
    ensures FirstClaim(claims, n) && crosslinks == 0 ==> OwnsAll(g, fat, claims, n, n + 1, reach, refs)
  {
    hide Reachable, Untouched, FreshKey;
    forall c: nat | IsMarked(reach, c)
      ensures exists i {:trigger claims[i]} :: 0 <= i < n + 1 && HasKey(refs, c, claims[i].dir, claims[i].entry)
    {
      if !HasKey(refs, c, claims[n].dir, claims[n].entry) {
        assert IsMarked(reach0, c) && refs[c - 2] == refs0[c - 2];
        var i :| 0 <= i < n && HasKey(refs0, c, claims[i].dir, claims[i].entry);
        assert HasKey(refs, c, claims[i].dir, claims[i].entry);
      }
    }
  }

  lemma EarlierClaim(g: Geometry, fat: seq<nat>, claims: seq<Claim>, i: nat, n: nat, crosslinks: nat,
                     reach0: seq<bool>, refs0: seq<ClusRef>, reach: seq<bool>, refs: seq<ClusRef>)
    requires i < n < |claims| && Marked(g, fat, claims[n], crosslinks, reach0, refs0, reach, refs)
    requires OwnsAll(g, fat, claims, i, n, reach0, refs0)
    requires FirstClaim(claims, n) ==> FreshKey(reach0, refs0, claims[n].dir, claims[n].entry)
    ensures OwnsAll(g, fat, claims, i, n + 1, reach, refs)
    ensures FirstClaim(claims, n) && crosslinks == 0 ==> Apart(g, fat, claims[i].start, claims[n].start)
  {
    hide Reachable, AllClaimed, TakenBack, FreshKey;
    forall c: nat | Reachable(g, fat, claims[i].start, c)
      ensures IsMarked(reach0, c) && IsMarked(reach, c)
      ensures HasKey(refs, c, claims[i].dir, claims[i].entry) || TakenBack(g, fat, claims, i, n + 1, c)
    {
      assert IsMarked(reach0, c);
      TakenLater(g, fat, claims, i, n, c);
    }
  }

  lemma TakenLater(g: Geometry, fat: seq<nat>, claims: seq<Claim>, i: nat, n: nat, c: nat)
    requires i < n < |claims|
    ensures TakenBack(g, fat, claims, i, n, c) ==> TakenBack(g, fat, claims, i, n + 1, c)
    ensures claims[n].OfDir() && Reachable(g, fat, claims[n].start, c) ==> TakenBack(g, fat, claims, i, n + 1, c)
  {
    hide Reachable;
    if claims[n].OfDir() && Reachable(g, fat, claims[n].start, c) {
      var _ := claims[n];
    }
  }

  // ---- Cross-links the checker misses ----

  /** Entry number 0 shares its key with the directory's own claim: a file in that place that runs into the directory
      is not reported. */
  lemma EntryZeroMissed(g: Geometry, fat: seq<nat>, reach: seq<bool>, refs: seq<ClusRef>)
    requires g.totalClusters == 2 && fat == [EOC, EOC_MARK, EOC_MARK, 2]
    requires reach == [true, false] && refs == [ClusRef(2, 0, true), ClusRef(0, 0, false)]
    ensures Reachable(g, fat, 2, 2) && Reachable(g, fat, 3, 2) && IsMarked(reach, 2)
    ensures !Stumbles(g, fat, 3, reach, refs, 2, 0)
    ensures Stumbles(g, fat, 3, reach, refs, 2, 1)
  {
    assert Nth(g, fat, 2, 0) == 2 && Nth(g, fat, 3, 0) == 3 && Nth(g, fat, 3, 1) == 2;
    assert NewGround(g, fat, 3, 1, reach);
    NoStumble(g, fat, 3, 1, reach, refs, 2, 0);
    assert Stumbles(g, fat, 3, reach, refs, 2, 1) by {
      assert IsMarked(reach, Nth(g, fat, 3, 1)) && !HasKey(refs, Nth(g, fat, 3, 1), 2, 1);
    }
  }
}

/** Cluster chains in an allocation table, and what freeing does to them. */
module Chains {
  import opened Layout

  /** The loop condition of every chain walker of the driver. */
  predicate Follows(c: nat) {
    2 <= c < EOC
  }

  /** No table value that a walker would follow leaves the volume. */
  ghost predicate Closed(g: Geometry, fat: seq<nat>) {
    |fat| == g.totalClusters + 2 && forall c {:trigger fat[c]} :: 2 <= c < |fat| && Follows(fat[c]) ==> fat[c] < |fat|
  }

  ghost predicate Distinct(ch: seq<nat>) {
    forall i, j {:trigger ch[i], ch[j]} :: 0 <= i < j < |ch| ==> ch[i] != ch[j]
  }

  /** `ch` is an acyclic run of clusters linked by the table and closed by an end-of-chain value. */
  ghost predicate IsChain(g: Geometry, fat: seq<nat>, ch: seq<nat>) {
    && |ch| > 0
    && |fat| == g.totalClusters + 2
    && Distinct(ch)
    && (forall i {:trigger ch[i]} :: 0 <= i < |ch| ==> g.IsCluster(ch[i]))
    && (forall i {:trigger fat[ch[i]]} :: 0 <= i < |ch| ==>
          if i + 1 < |ch| then fat[ch[i]] == ch[i + 1] else fat[ch[i]] >= EOC)
  }

  function NonFree(fat: seq<nat>): set<nat> {
    set c: nat | c < |fat| && fat[c] != FREE
  }

  /** The table with the entries of some clusters cleared. */
  function Cleared(fat: seq<nat>, cs: seq<nat>): (r: seq<nat>)
    ensures |r| == |fat|
    ensures forall c {:trigger r[c]} :: 0 <= c < |fat| ==> r[c] == if c in cs then FREE else fat[c]
  {
    seq(|fat|, c requires 0 <= c < |fat| => if c in cs then FREE else fat[c])
  }

  /** Clearing one entry shrinks the set of entries in use, unless it was free already. */
  lemma ClearShrinks(fat: seq<nat>, c: nat)
    requires c < |fat|
    ensures fat[c] != FREE ==> |NonFree(fat[c := FREE])| < |NonFree(fat)|
    ensures fat[c] == FREE ==> fat[c := FREE] == fat
  {
    assert NonFree(fat[c := FREE]) == NonFree(fat) - {c};
  }

  ghost predicate ChainFrom(g: Geometry, fat: seq<nat>, ch: seq<nat>, start: nat) {
    IsChain(g, fat, ch) && ch[0] == start
  }

  /** Some front part of the chain is free and the rest of the table is as it was. */
  ghost predicate PartlyFreed(fat: seq<nat>, ch: seq<nat>, w: seq<nat>) {
    exists k :: 0 <= k <= |ch| && w == Cleared(fat, ch[..k])
  }

  /** Freeing an acyclic chain from its head leaves, at every step, the clusters not yet freed a valid chain. */
  lemma ClearedPrefixLeavesChain(g: Geometry, fat: seq<nat>, ch: seq<nat>, k: nat)
    requires IsChain(g, fat, ch) && k < |ch|
    ensures IsChain(g, Cleared(fat, ch[..k]), ch[k..])
  {
    var rest := ch[k..];
    forall i | 0 <= i < |rest|
      ensures rest[i] !in ch[..k]
    {
      assert rest[i] == ch[k + i];
    }
  }

  lemma FreeingStarts(g: Geometry, fat: seq<nat>, ch: seq<nat>, start: nat)
    ensures ChainFrom(g, fat, ch, start) ==>
              |ch| > 0 && ch[0] == start && g.IsCluster(start) && Cleared(fat, ch[..0]) == fat
  {
  }

  /** Clearing one entry more. */
  lemma ClearedNext(fat: seq<nat>, ch: seq<nat>, k: nat)
    requires k < |ch| && ch[k] < |fat|
    ensures Cleared(fat, ch[..k])[ch[k] := FREE] == Cleared(fat, ch[..k + 1])
  {
    assert ch[..k + 1] == ch[..k] + [ch[k]];
  }

  lemma FreeingStep(g: Geometry, fat: seq<nat>, ch: seq<nat>, start: nat, k: nat)
    requires g.Valid() && ChainFrom(g, fat, ch, start) && k < |ch|
    ensures ch[k] < |fat| && |Cleared(fat, ch[..k])| == |fat|
    ensures Cleared(fat, ch[..k])[ch[k]] == fat[ch[k]]
    ensures k + 1 < |ch| ==> fat[ch[k]] == ch[k + 1] && g.IsCluster(ch[k + 1])
    ensures k + 1 == |ch| ==> !Follows(fat[ch[k]])
    ensures Cleared(fat, ch[..k])[ch[k] := FREE] == Cleared(fat, ch[..k + 1])
    ensures PartlyFreed(fat, ch, Cleared(fat, ch[..k + 1]))
  {
    ClearedNext(fat, ch, k);
    assert forall i | 0 <= i < k :: ch[i] != ch[k];
    assert ch[k] !in ch[..k];
    hide Distinct;
  }

  lemma FreeingEnds(g: Geometry, fat: seq<nat>, ch: seq<nat>, start: nat, k: nat, c: nat)
    requires g.Valid() && ChainFrom(g, fat, ch, start) && k <= |ch|
    requires !Follows(c) && (k < |ch| ==> c == ch[k])
    ensures ch[..k] == ch
  {
  }

  /** Only freeing happened, and whatever followed a freed entry is free too, but for the cursor `c`. */
  ghost predicate Swept(fat: seq<nat>, fat': seq<nat>, c: nat) {
    && |fat'| == |fat|
    && (forall x {:trigger fat'[x]} :: 0 <= x < |fat| ==> fat'[x] == FREE || fat'[x] == fat[x])
    && (forall x {:trigger fat[x]} :: 2 <= x < |fat| && fat'[x] != fat[x] && fat[x] != c && Follows(fat[x]) ==>
          fat[x] < |fat| && fat'[fat[x]] == FREE)
  }

  lemma SweepStarts(fat: seq<nat>, c: nat)
    ensures Swept(fat, fat, c)
  {
  }

  lemma SweepStep(fat: seq<nat>, fat': seq<nat>, c: nat)
    requires Swept(fat, fat', c) && 2 <= c < |fat'|
    ensures Swept(fat, fat'[c := FREE], fat'[c])
  {
  }

  lemma SweepEnds(fat: seq<nat>, fat': seq<nat>, c: nat)
    requires Swept(fat, fat', c) && !Follows(c)
    ensures Swept(fat, fat', FREE)
  {
  }

  function Members(ch: seq<nat>): (s: set<nat>)
    ensures forall c {:trigger c in s} {:trigger c in ch} :: c in s <==> c in ch
  {
    set c | c in ch
  }

  lemma {:induction false} MembersCount(ch: seq<nat>)
    requires Distinct(ch)
    ensures |Members(ch)| == |ch|
  {
    if ch != [] {
      var front, last := ch[..|ch| - 1], ch[|ch| - 1];
      assert Distinct(front) && last !in front;
      MembersCount(front);
      assert ch == front + [last];
      assert Members(ch) == Members(front) + {last};
    }
  }

  /** The numbers of the clusters of a volume. */
  function Range(n: nat): (r: set<nat>)
    ensures |r| == n && forall c {:trigger c in r} :: c in r <==> 2 <= c < n + 2
  {
    if n == 0 then {} else Range(n - 1) + {n + 1}
  }
}

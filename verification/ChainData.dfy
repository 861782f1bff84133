/** What a chain of clusters holds: its sectors in order, read as the bytes of a file or as the entries of a directory. */
module ChainData {
  import opened Bytes
  import opened Layout
  import opened LongNames

  const PER_SECTOR: nat := 16

  type Data = seq<seq<Sector>>

  /** Every cluster of the chain has its sectors in `data`. */
  ghost predicate Covers(spc: nat, data: Data, ch: seq<nat>) {
    spc > 0 && forall i {:trigger ch[i]} :: 0 <= i < |ch| ==> 2 <= ch[i] < |data| && |data[ch[i]]| == spc
  }

  /** The sectors of a chain, cluster after cluster. */
  ghost function ChainSectors(data: Data, ch: seq<nat>): seq<Sector> {
    if ch == [] then [] else
      var last := ch[|ch| - 1];
      ChainSectors(data, ch[..|ch| - 1]) + if last < |data| then data[last] else []
  }

  lemma {:induction false} ChainLength(spc: nat, data: Data, ch: seq<nat>)
    requires Covers(spc, data, ch)
    ensures |ChainSectors(data, ch)| == Mul(|ch|, spc)
  {
    if ch != [] {
      var front := ch[..|ch| - 1];
      assert Covers(spc, data, front);
      ChainLength(spc, data, front);
    }
  }

  /** Sector `q * spc + s` of a chain is sector `s` of its cluster number `q`. */
  lemma {:induction false} ChainSectorAt(spc: nat, data: Data, ch: seq<nat>, q: nat, s: nat)
    requires Covers(spc, data, ch) && q < |ch| && s < spc
    ensures Mul(q, spc) + s < |ChainSectors(data, ch)| == Mul(|ch|, spc)
    ensures ChainSectors(data, ch)[Mul(q, spc) + s] == data[ch[q]][s]
  {
    ChainLength(spc, data, ch);
    Digits(spc, q, s, |ch|, 0);
    var front := ch[..|ch| - 1];
    assert Covers(spc, data, front);
    ChainLength(spc, data, front);
    if q < |ch| - 1 {
      ChainSectorAt(spc, data, front, q, s);
    }
  }

  /** A chain does not notice changes to other clusters. */
  lemma {:induction false} ChainFrame(data: Data, data': Data, ch: seq<nat>)
    requires |data| == |data'|
    requires forall i {:trigger ch[i]} :: 0 <= i < |ch| ==> ch[i] < |data| && data[ch[i]] == data'[ch[i]]
    ensures ChainSectors(data, ch) == ChainSectors(data', ch)
  {
    if ch != [] {
      ChainFrame(data, data', ch[..|ch| - 1]);
    }
  }

  lemma ChainAppend(data: Data, ch: seq<nat>, c: nat)
    requires c < |data|
    ensures ChainSectors(data, ch + [c]) == ChainSectors(data, ch) + data[c]
  {
    assert (ch + [c])[..|ch|] == ch;
  }

  /** Storing a sector of one of its clusters changes exactly that sector of the chain. */
  lemma ChainUpdate(spc: nat, v: View, ch: seq<nat>, q: nat, s: nat, sector: Sector)
    requires Covers(spc, v.data, ch) && q < |ch| && s < spc
    requires forall i | 0 <= i < |ch| && i != q :: ch[i] != ch[q]
    ensures Covers(spc, v.PutSector(ch[q], s, sector).data, ch)
    ensures Mul(q, spc) + s < |ChainSectors(v.data, ch)|
    ensures ChainSectors(v.PutSector(ch[q], s, sector).data, ch) ==
              ChainSectors(v.data, ch)[Mul(q, spc) + s := sector]
  {
    hide ChainSectors, Mul, Quot, Rem;
    var w := v.PutSector(ch[q], s, sector);
    var a, b := ChainSectors(v.data, ch), ChainSectors(w.data, ch);
    assert Covers(spc, w.data, ch);
    ChainLength(spc, v.data, ch);
    ChainLength(spc, w.data, ch);
    Digits(spc, q, s, |ch|, 0);
    forall m | 0 <= m < |a|
      ensures b[m] == a[Mul(q, spc) + s := sector][m]
    {
      var i, t := Quot(m, spc), Rem(m, spc);
      QuotRem(spc, m);
      Digits(spc, |ch|, 0, i, t);
      ChainSectorAt(spc, v.data, ch, i, t);
      ChainSectorAt(spc, w.data, ch, i, t);
      Digits(spc, i, t, q, s);
    }
  }

  /** The directory entries of a run of sectors. */
  ghost function Entries(secs: seq<Sector>): (es: seq<Entry>)
    ensures |es| == PER_SECTOR * |secs|
    ensures forall k {:trigger es[k]} :: 0 <= k < |es| ==>
              es[k] == secs[k / PER_SECTOR][k % PER_SECTOR * ENTRY_SIZE..k % PER_SECTOR * ENTRY_SIZE + ENTRY_SIZE]
  {
    seq(PER_SECTOR * |secs|, k requires 0 <= k < PER_SECTOR * |secs| =>
      secs[k / PER_SECTOR][k % PER_SECTOR * ENTRY_SIZE..k % PER_SECTOR * ENTRY_SIZE + ENTRY_SIZE])
  }

  lemma EntriesUpdate(secs: seq<Sector>, m: nat, o: nat, e: Entry)
    requires m < |secs| && o < PER_SECTOR
    ensures Entries(secs[m := Splice(secs[m], o * ENTRY_SIZE, e)]) == Entries(secs)[m * PER_SECTOR + o := e]
  {
    var sector: Sector := Splice(secs[m], o * ENTRY_SIZE, e);
    var secs': seq<Sector> := secs[m := sector];
    var a, b := Entries(secs), Entries(secs');
    forall k | 0 <= k < |a|
      ensures b[k] == a[m * PER_SECTOR + o := e][k]
    {
      var r := k % PER_SECTOR * ENTRY_SIZE;
      if k / PER_SECTOR == m {
        SpliceWindow(secs[m], o * ENTRY_SIZE, e, r, r + ENTRY_SIZE);
      }
    }
  }

  lemma EntriesAppend(secs: seq<Sector>, more: seq<Sector>)
    ensures Entries(secs + more) == Entries(secs) + Entries(more)
  {
    var a, b := Entries(secs + more), Entries(secs) + Entries(more);
    forall k | 0 <= k < |a|
      ensures a[k] == b[k]
    {
      if k >= |Entries(secs)| {
        var j := k - PER_SECTOR * |secs|;
        assert (secs + more)[k / PER_SECTOR] == more[j / PER_SECTOR];
      }
    }
  }

  /** The bytes of a run of sectors. */
  ghost function FlatBytes(secs: seq<Sector>): (b: seq<Byte>)
    ensures |b| == SECTOR_SIZE * |secs|
    ensures forall i {:trigger b[i]} :: 0 <= i < |b| ==> b[i] == secs[i / SECTOR_SIZE][i % SECTOR_SIZE]
  {
    seq(SECTOR_SIZE * |secs|, i requires 0 <= i < SECTOR_SIZE * |secs| => secs[i / SECTOR_SIZE][i % SECTOR_SIZE])
  }

  lemma FlatUpdate(secs: seq<Sector>, m: nat, off: nat, bytes: seq<Byte>)
    requires m < |secs| && off + |bytes| <= SECTOR_SIZE
    ensures SECTOR_SIZE * m + off + |bytes| <= |FlatBytes(secs)|
    ensures FlatBytes(secs[m := Splice(secs[m], off, bytes)]) == Splice(FlatBytes(secs), SECTOR_SIZE * m + off, bytes)
  {
    var sector: Sector := Splice(secs[m], off, bytes);
    var secs': seq<Sector> := secs[m := sector];
    var a, b := FlatBytes(secs'), Splice(FlatBytes(secs), SECTOR_SIZE * m + off, bytes);
    forall i | 0 <= i < |a|
      ensures a[i] == b[i]
    {
    }
  }

  lemma FlatWindow(secs: seq<Sector>, m: nat, lo: nat, hi: nat)
    requires m < |secs| && lo <= hi <= SECTOR_SIZE
    ensures SECTOR_SIZE * m + hi <= |FlatBytes(secs)|
    ensures FlatBytes(secs)[SECTOR_SIZE * m + lo..SECTOR_SIZE * m + hi] == secs[m][lo..hi]
  {
  }

  lemma FlatAppend(secs: seq<Sector>, more: seq<Sector>)
    ensures FlatBytes(secs + more) == FlatBytes(secs) + FlatBytes(more)
  {
    var a, b := FlatBytes(secs + more), FlatBytes(secs) + FlatBytes(more);
    forall i | 0 <= i < |a|
      ensures a[i] == b[i]
    {
      if i >= |FlatBytes(secs)| {
        var j := i - SECTOR_SIZE * |secs|;
        assert (secs + more)[i / SECTOR_SIZE] == more[j / SECTOR_SIZE];
      }
    }
  }
}

/** A directory as its entries are meant: one cell per entry. */
module Cells {
  import opened Bytes
  import opened Names
  import opened LongNames

  const ATTR_DIR: Byte := 0x10
  const ATTR_ARCHIVE: Byte := 0x20

  datatype Cell =
    | Unused
    | Deleted
    | Dot(up: bool, clus: nat)
    | Part(name: Name, short: Short, j: nat)
    | Entry83(name: Name, short: Short, attr: Byte, clus: nat, size: nat)

  function EntryCluster(e: Entry): (c: nat)
    ensures c < U32
  {
    Un16(e[20..22]) * 0x1_0000 + Un16(e[26..28])
  }

  function EntrySize(e: Entry): (n: nat)
    ensures n < U32
  {
    Un32(e[28..32])
  }

  /** The bytes that give an entry's first cluster and its size. */
  lemma EntrySays(e: Entry)
    ensures EntryCluster(e) == Spelt(e[26], e[27], e[20], e[21])
    ensures EntrySize(e) == Spelt(e[28], e[29], e[30], e[31])
  {
  }

  function EntryShort(e: Entry): Short {
    e[..11]
  }

  /** The short names of the two dot entries: of the directory itself, and of the one above. */
  function DotName(up: bool): Short {
    if up then [DOT, DOT] + seq(9, _ => SPACE) else [DOT] + seq(10, _ => SPACE)
  }

  /** What an entry on the disk says. */
  ghost predicate Matches(e: Entry, c: Cell) {
    match c
    case Unused => e[0] == 0
    case Deleted => e[0] == DELETED
    case Dot(up, clus) => EntryShort(e) == DotName(up) && e[11] == ATTR_DIR && EntryCluster(e) == clus
    case Part(name, short, j) => Storable(name) && j <= Parts(name) && IsRecord(e, name, Checksum(short), j)
    case Entry83(name, short, attr, clus, size) =>
      && Storable(name)
      && EntryShort(e) == short
      && short[0] !in {0, DELETED, DOT}
      && e[11] == attr && attr in {ATTR_DIR, ATTR_ARCHIVE}
      && EntryCluster(e) == clus && EntrySize(e) == size
  }

  ghost predicate AllMatch(es: seq<Entry>, cells: seq<Cell>) {
    |cells| == |es| && forall k {:trigger cells[k]} {:trigger es[k]} :: 0 <= k < |cells| ==> Matches(es[k], cells[k])
  }

  /** Long-name parts count down to the short entry they belong to, and unused entries are all at the end. */
  ghost predicate WellRun(cells: seq<Cell>) {
    forall k {:trigger WellPlaced(cells, k)} :: 0 <= k < |cells| ==> WellPlaced(cells, k)
  }

  ghost predicate WellPlaced(cells: seq<Cell>, k: nat)
    requires k < |cells|
  {
    match cells[k]
    case Unused => k + 1 < |cells| ==> cells[k + 1].Unused?
    case Deleted => true
    case Dot(_, _) => true
    case Part(name, short, j) =>
      && 1 <= j <= Parts(name)
      && k + 1 < |cells|
      && (if j == 1 then cells[k + 1].Entry83? && cells[k + 1].name == name && cells[k + 1].short == short
          else cells[k + 1] == Part(name, short, j - 1))
      && (j < Parts(name) ==> k > 0 && cells[k - 1] == Part(name, short, j + 1))
    case Entry83(name, short, _, _, _) => k > 0 && cells[k - 1] == Part(name, short, 1)
  }

  /** No two entries have names equal up to case. */
  ghost predicate NamesDistinct(cells: seq<Cell>) {
    forall i, k {:trigger cells[i], cells[k]} ::
      0 <= i < k < |cells| && cells[i].Entry83? && cells[k].Entry83? ==> Fold(cells[i].name) != Fold(cells[k].name)
  }

  /** No two entries have the same short form. */
  ghost predicate ShortsDistinct(cells: seq<Cell>) {
    forall i, k {:trigger cells[i], cells[k]} ::
      0 <= i < k < |cells| && cells[i].Entry83? && cells[k].Entry83? ==> cells[i].short != cells[k].short
  }

  predicate Free(c: Cell) {
    c.Unused? || c.Deleted?
  }

  /** The cells of a new entry: the parts of its name, last one first, then the short entry. */
  function Run(name: Name, short: Short, attr: Byte, clus: nat, size: nat): (run: seq<Cell>)
    ensures |run| == Parts(name) + 1
    ensures forall i {:trigger run[i]} :: 0 <= i < Parts(name) ==> run[i] == Part(name, short, Parts(name) - i)
    ensures run[Parts(name)] == Entry83(name, short, attr, clus, size)
  {
    seq(Parts(name), i requires 0 <= i < Parts(name) => Part(name, short, Parts(name) - i))
      + [Entry83(name, short, attr, clus, size)]
  }

  function Shorts(cells: seq<Cell>): set<Short> {
    set k | 0 <= k < |cells| && cells[k].Entry83? :: cells[k].short
  }

  /** The entry at `k` has a name equal to `name` up to case. */
  ghost predicate Names83(cells: seq<Cell>, k: nat, name: Name) {
    k < |cells| && cells[k].Entry83? && Fold(cells[k].name) == Fold(name)
  }

  ghost predicate Absent(cells: seq<Cell>, name: Name) {
    forall k {:trigger Names83(cells, k, name)} :: 0 <= k < |cells| ==> !Names83(cells, k, name)
  }

  /** The long-name run of an entry fills the places just before it, last part first. */
  lemma {:induction false} RunBefore(cells: seq<Cell>, k: nat, t: nat)
    requires WellRun(cells) && k < |cells| && cells[k].Entry83? && 1 <= t <= Parts(cells[k].name)
    ensures t <= k && cells[k - t] == Part(cells[k].name, cells[k].short, t)
  {
    assert WellPlaced(cells, k);
    if t > 1 {
      RunBefore(cells, k, t - 1);
      assert WellPlaced(cells, k - (t - 1));
    }
  }

  /** Once unused, always unused. */
  lemma {:induction false} UnusedTail(cells: seq<Cell>, k: nat, i: nat)
    requires WellRun(cells) && k <= i < |cells| && cells[k].Unused?
    ensures cells[i].Unused?
    decreases i - k
  {
    if k < i {
      assert WellPlaced(cells, k);
      UnusedTail(cells, k + 1, i);
    }
  }

  /** The first byte and the attribute byte of an entry tell the kind of its cell. */
  lemma CellKind(cells: seq<Cell>, k: nat, e: Entry)
    requires WellRun(cells) && k < |cells| && Matches(e, cells[k])
    ensures e[0] == 0 <==> cells[k].Unused?
    ensures e[0] == DELETED <==> cells[k].Deleted?
    ensures cells[k].Part? <==> e[0] !in {0, DELETED} && e[11] == ATTR_LFN
    ensures cells[k].Part? ==>
              && e[0] % 32 == cells[k].j && (e[0] / 64 % 2 == 1 <==> cells[k].j == Parts(cells[k].name))
              && e[13] == Checksum(cells[k].short)
    ensures cells[k].Dot? <==> e[0] == DOT && e[11] != ATTR_LFN
  {
    assert WellPlaced(cells, k);
  }

  /** Behind the first unused entry there is nothing. */
  lemma UnusedEnds(cells: seq<Cell>, k: nat)
    requires WellRun(cells) && k < |cells| && cells[k].Unused?
    ensures forall i | k <= i < |cells| :: cells[i].Unused?
  {
    forall i | k <= i < |cells|
      ensures cells[i].Unused?
    {
      UnusedTail(cells, k, i);
    }
  }

  /** No short form built by the driver begins with a dot: the dots of a name are left out of the base. */
  lemma ShortNotDot(name: Name, n: nat)
    ensures Make83(name)[0] != DOT
    ensures 1 <= n <= 9999 ==> Numbered(name, n)[0] != DOT
  {
    assert Make83(name)[0] == Pad(Stem(name, 8), 8)[0];
    if 1 <= n <= 9999 {
      assert Numbered(name, n)[0] == Pad(NumberedBase(name, n), 8)[0] == NumberedBase(name, n)[0];
    }
  }

  lemma {:induction false} StemNonzero(name: Name, i: nat, dot: int, max: nat, acc: seq<Byte>)
    requires i <= |name| && |acc| <= max
    requires forall k {:trigger acc[k]} :: 0 <= k < |acc| ==> acc[k] != SPACE && acc[k] != DOT
    requires forall k {:trigger acc[k]} :: 0 <= k < |acc| ==> acc[k] != 0
    requires forall k {:trigger name[k]} :: 0 <= k < |name| ==> name[k] != 0
    ensures forall k | 0 <= k < |StemFrom(name, i, dot, max, acc)| :: StemFrom(name, i, dot, max, acc)[k] != 0
    decreases |name| - i
  {
    if i < |name| && |acc| < max && i != dot {
      var c := Upper(name[i]);
      StemNonzero(name, i + 1, dot, max, if c == SPACE || c == DOT then acc else acc + [c]);
    }
  }

  /** Every short form made for a storable name can start a live entry. */
  lemma ShortIsLive(name: Name, n: nat)
    requires Storable(name)
    ensures Make83(name)[0] !in {0, DELETED, DOT}
    ensures 1 <= n <= 9999 ==> Numbered(name, n)[0] !in {0, DELETED, DOT}
  {
    ShortNotDot(name, n);
    StemNonzero(name, 0, LastDot(name), 8, []);
    assert Make83(name)[0] == Pad(Stem(name, 8), 8)[0];
    if 1 <= n <= 9999 {
      var max := 7 - |Decimal(n)|;
      StemFront(name, 0, LastDot(name), max, 8, []);
      assert Numbered(name, n)[0] == Pad(NumberedBase(name, n), 8)[0] == NumberedBase(name, n)[0];
    }
  }

  lemma ShortForIsLive(name: Name, taken: set<Short>, short: Short)
    requires Storable(name) && ShortFor(name, taken, short)
    ensures short[0] !in {0, DELETED, DOT}
  {
    hide Make83, Numbered;
    ShortIsLive(name, 1);
    if n: nat :| 1 <= n <= 9999 && short == Numbered(name, n) {
      ShortIsLive(name, n);
    }
  }

  /** A run placed on the first free places of a gap leaves the directory well formed. */
  lemma RunFits(cells: seq<Cell>, s: nat, name: Name, short: Short, attr: Byte, clus: nat, size: nat)
    requires WellRun(cells) && |name| > 0 && s + Parts(name) + 1 <= |cells|
    requires forall i {:trigger cells[i]} :: s <= i < s + Parts(name) + 1 ==> Free(cells[i])
    requires s == 0 || !Free(cells[s - 1])
    ensures WellRun(Splice(cells, s, Run(name, short, attr, clus, size)))
  {
    var run := Run(name, short, attr, clus, size);
    var after := Splice(cells, s, run);
    forall k | 0 <= k < |after|
      ensures WellPlaced(after, k)
    {
      assert WellPlaced(cells, k);
      if k == s + |run| {
        assert Free(cells[k - 1]);
      }
    }
  }

  /** Lookups after a run for a new name was placed on free places: the new name is found there, every other name
      where it was. */
  lemma LookupAfterRun(cells: seq<Cell>, s: nat, name: Name, short: Short, attr: Byte, clus: nat, size: nat, other: Name)
    requires s + Parts(name) + 1 <= |cells|
    requires forall i {:trigger cells[i]} :: s <= i < s + Parts(name) + 1 ==> Free(cells[i])
    ensures var after := Splice(cells, s, Run(name, short, attr, clus, size));
      && Names83(after, s + Parts(name), name)
      && forall k | 0 <= k < |cells| && k != s + Parts(name) ::
           Names83(after, k, other) == Names83(cells, k, other) && (cells[k].Entry83? ==> after[k] == cells[k])
  {
    var run := Run(name, short, attr, clus, size);
    var after := Splice(cells, s, run);
    forall k | 0 <= k < |cells| && k != s + Parts(name)
      ensures Names83(after, k, other) == Names83(cells, k, other) && (cells[k].Entry83? ==> after[k] == cells[k])
    {
      if s <= k < s + |run| {
        assert Free(cells[k]);
        assert after[k].Part?;
      }
    }
  }

  lemma NamesStayDistinct(cells: seq<Cell>, s: nat, name: Name, short: Short, attr: Byte, clus: nat, size: nat)
    requires s + Parts(name) + 1 <= |cells| && Absent(cells, name)
    requires forall i {:trigger cells[i]} :: s <= i < s + Parts(name) + 1 ==> Free(cells[i])
    ensures NamesDistinct(cells) ==> NamesDistinct(Splice(cells, s, Run(name, short, attr, clus, size)))
    ensures ShortsDistinct(cells) && short !in Shorts(cells) ==>
              ShortsDistinct(Splice(cells, s, Run(name, short, attr, clus, size)))
  {
    var after := Splice(cells, s, Run(name, short, attr, clus, size));
    forall k | 0 <= k < |after| && after[k].Entry83?
      ensures k == s + Parts(name) || (cells[k] == after[k] && !Names83(cells, k, name))
    {
      LookupAfterRun(cells, s, name, short, attr, clus, size, name);
    }
  }

  /** More unused places at the end. */
  lemma WellRunGrows(cells: seq<Cell>, n: nat)
    requires WellRun(cells)
    ensures WellRun(cells + seq(n, _ => Unused))
  {
    var after := cells + seq(n, _ => Unused);
    forall k | 0 <= k < |after|
      ensures WellPlaced(after, k)
    {
      if k < |cells| {
        assert WellPlaced(cells, k);
      }
    }
  }

  // ---- A directory as a map from case-folded names ----

  ghost function ListedNames(cells: seq<Cell>): set<Name> {
    set k | 0 <= k < |cells| && cells[k].Entry83? :: Fold(cells[k].name)
  }

  ghost function IndexOf(cells: seq<Cell>, n: Name): (k: nat)
    requires n in ListedNames(cells)
    ensures k < |cells| && cells[k].Entry83? && Fold(cells[k].name) == n
  {
    var k :| 0 <= k < |cells| && cells[k].Entry83? && Fold(cells[k].name) == n;
    k
  }

  /** The entries of a directory by case-folded name. */
  ghost function Listing(cells: seq<Cell>): (m: map<Name, Cell>)
    ensures forall n {:trigger m[n]} :: n in m ==> m[n].Entry83? && Fold(m[n].name) == n
  {
    map n | n in ListedNames(cells) :: cells[IndexOf(cells, n)]
  }

  lemma ListingAt(cells: seq<Cell>, k: nat)
    requires NamesDistinct(cells) && k < |cells| && cells[k].Entry83?
    ensures Fold(cells[k].name) in Listing(cells) && Listing(cells)[Fold(cells[k].name)] == cells[k]
  {
    var n := Fold(cells[k].name);
    assert n in ListedNames(cells);
    var i := IndexOf(cells, n);
    assert i == k;
  }

  lemma ListingAbsent(cells: seq<Cell>, name: Name)
    ensures Absent(cells, name) <==> Fold(name) !in Listing(cells)
  {
    if Fold(name) in Listing(cells) {
      assert Names83(cells, IndexOf(cells, Fold(name)), name);
    }
    forall k | 0 <= k < |cells| && Names83(cells, k, name)
      ensures Fold(name) in ListedNames(cells)
    {
    }
  }

  /** The listing is the only map with the directory's names and entries. */
  lemma ListingIs(cells: seq<Cell>, m: map<Name, Cell>)
    requires NamesDistinct(cells) && m.Keys == ListedNames(cells)
    requires forall k {:trigger cells[k]} :: 0 <= k < |cells| && cells[k].Entry83? && Fold(cells[k].name) in m ==>
               m[Fold(cells[k].name)] == cells[k]
    ensures Listing(cells) == m
  {
    forall n | n in m
      ensures Listing(cells)[n] == m[n]
    {
      var k := IndexOf(cells, n);
      ListingAt(cells, k);
    }
  }

  /** Outside place `k` the two directories have the same short entries. */
  ghost predicate SameBut(cells: seq<Cell>, cells': seq<Cell>, k: nat) {
    && |cells| <= |cells'|
    && (forall i {:trigger cells'[i]} :: 0 <= i < |cells'| && i != k && cells'[i].Entry83? ==>
          i < |cells| && cells[i] == cells'[i])
    && (forall i {:trigger cells[i]} :: 0 <= i < |cells| && i != k && cells[i].Entry83? ==> cells'[i] == cells[i])
  }

  /** A new entry, or a new content of an old one, enters the listing under its name. */
  lemma ListingPut(cells: seq<Cell>, cells': seq<Cell>, k: nat)
    requires NamesDistinct(cells) && NamesDistinct(cells') && SameBut(cells, cells', k)
    requires k < |cells'| && cells'[k].Entry83?
    requires k < |cells| && cells[k].Entry83? ==> Fold(cells[k].name) == Fold(cells'[k].name)
    ensures Listing(cells') == Listing(cells)[Fold(cells'[k].name) := cells'[k]]
  {
    var m := Listing(cells)[Fold(cells'[k].name) := cells'[k]];
    forall n
      ensures n in m <==> n in ListedNames(cells')
    {
      if n in ListedNames(cells) {
        assert cells[IndexOf(cells, n)] == cells'[IndexOf(cells, n)] || IndexOf(cells, n) == k;
      }
      if n in ListedNames(cells') {
        assert IndexOf(cells', n) == k || cells'[IndexOf(cells', n)] == cells[IndexOf(cells', n)];
      }
      assert n == Fold(cells'[k].name) ==> n in ListedNames(cells');
    }
    forall i {:trigger cells'[i]} | 0 <= i < |cells'| && cells'[i].Entry83?
      ensures m[Fold(cells'[i].name)] == cells'[i]
    {
      if i != k {
        ListingAt(cells, i);
      }
    }
    ListingIs(cells', m);
  }

  /** An entry that is gone leaves the listing. */
  lemma ListingDrop(cells: seq<Cell>, cells': seq<Cell>, k: nat)
    requires NamesDistinct(cells) && NamesDistinct(cells') && SameBut(cells, cells', k)
    requires k < |cells| && cells[k].Entry83? && !cells'[k].Entry83?
    ensures Listing(cells') == Listing(cells) - {Fold(cells[k].name)}
  {
    var m := Listing(cells) - {Fold(cells[k].name)};
    forall n
      ensures n in m <==> n in ListedNames(cells')
    {
      if n in m {
        assert cells[IndexOf(cells, n)] == cells'[IndexOf(cells, n)];
      }
      if n in ListedNames(cells') {
        assert cells'[IndexOf(cells', n)] == cells[IndexOf(cells', n)];
      }
    }
    forall i {:trigger cells'[i]} | 0 <= i < |cells'| && cells'[i].Entry83?
      ensures m[Fold(cells'[i].name)] == cells'[i]
    {
      ListingAt(cells, i);
    }
    ListingIs(cells', m);
  }

  /** Directories with the same short entries list the same. */
  lemma ListingSame(cells: seq<Cell>, cells': seq<Cell>)
    requires NamesDistinct(cells) && NamesDistinct(cells') && SameBut(cells, cells', |cells'|)
    ensures Listing(cells') == Listing(cells)
  {
    forall n
      ensures n in ListedNames(cells) <==> n in ListedNames(cells')
    {
      if n in ListedNames(cells) {
        assert cells[IndexOf(cells, n)] == cells'[IndexOf(cells, n)];
      }
      if n in ListedNames(cells') {
        assert cells'[IndexOf(cells', n)] == cells[IndexOf(cells', n)];
      }
    }
    forall i {:trigger cells'[i]} | 0 <= i < |cells'| && cells'[i].Entry83?
      ensures Listing(cells)[Fold(cells'[i].name)] == cells'[i]
    {
      ListingAt(cells, i);
    }
    ListingIs(cells', Listing(cells));
  }
}

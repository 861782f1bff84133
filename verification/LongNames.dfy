/** Long-name records: thirteen characters to a directory entry, written last part first, tied to the short entry that
    follows them by a checksum. */
module LongNames {
  import opened Bytes
  import opened Names

  const ENTRY_SIZE: nat := 32
  const ATTR_LFN: Byte := 0x0F

  type Entry = e: seq<Byte> | |e| == ENTRY_SIZE witness seq(ENTRY_SIZE, _ => 0)

  /** Names the driver stores: 1 to 255 nonzero bytes whose short form is not mistaken for a deleted entry. */
  ghost predicate Storable(name: Name) {
    && 1 <= |name| < MAX_NAME
    && (forall i {:trigger name[i]} :: 0 <= i < |name| ==> name[i] != 0)
    && Make83(name)[0] != DELETED
  }

  function Parts(name: Name): (n: nat)
    ensures 13 * n >= |name| > 13 * n - 13
  {
    (|name| + 12) / 13
  }

  /** Rotate right by one and add, over the first `n` bytes. */
  function ChecksumOf(s: Short, n: nat): Byte
    requires n <= 11
  {
    if n == 0 then 0
    else
      var sum := ChecksumOf(s, n - 1);
      ((if sum % 2 == 1 then 0x80 else 0) + sum / 2 + s[n - 1]) % 256
  }

  function Checksum(s: Short): Byte {
    ChecksumOf(s, 11)
  }

  method LfnChecksum(name83: Short) returns (sum: Byte)
    ensures sum == Checksum(name83)
  {
    sum := 0;
    var i := 0;
    while i < 11
      invariant 0 <= i <= 11 && sum == ChecksumOf(name83, i)
    {
      sum := ((if sum % 2 == 1 then 0x80 else 0) + sum / 2 + name83[i]) % 256;
      i := i + 1;
    }
  }

  /** The checksum of a well-known name. */
  lemma KnownChecksum()
    ensures Checksum([82, 69, 65, 68, 77, 69, 32, 32, 84, 88, 84]) == 0x73
  {
    hide ChecksumOf;
    var s: Short := [82, 69, 65, 68, 77, 69, 32, 32, 84, 88, 84];
    ChecksumNext(s, 0, 0);
    ChecksumNext(s, 1, 82);
    ChecksumNext(s, 2, 110);
    ChecksumNext(s, 3, 120);
    ChecksumNext(s, 4, 128);
    ChecksumNext(s, 5, 141);
    KnownRest(s);
  }

  lemma KnownRest(s: Short)
    requires ChecksumOf(s, 6) == 11 && s[6..] == [32, 32, 84, 88, 84]
    ensures Checksum(s) == 0x73
  {
    hide ChecksumOf;
    assert s[6] == s[6..][0] && s[7] == s[6..][1] && s[8] == s[6..][2] && s[9] == s[6..][3] && s[10] == s[6..][4];
    ChecksumNext(s, 6, 11);
    ChecksumNext(s, 7, 165);
    ChecksumNext(s, 8, 242);
    ChecksumNext(s, 9, 205);
    ChecksumNext(s, 10, 62);
  }

  lemma ChecksumNext(s: Short, n: nat, sum: Byte)
    requires n < 11 && (if n == 0 then sum == 0 else ChecksumOf(s, n) == sum)
    ensures ChecksumOf(s, n + 1) == (if sum % 2 == 1 then 128 + sum / 2 + s[n] else sum / 2 + s[n]) % 256
  {
  }

  /** The 16-bit character in slot `ci` of a stored name: the name, one zero, then all-ones padding. */
  function Char16(name: Name, ci: nat): (c: nat)
    ensures c < 0x1_0000
  {
    if ci < |name| then name[ci] else if ci == |name| then 0 else 0xFFFF
  }

  /** The byte offset of character slot `t` in a record: the slots are split over three fields. */
  function SlotOffset(t: nat): (o: nat)
    requires t < 13
    ensures o + 2 <= ENTRY_SIZE
  {
    if t < 5 then 1 + 2 * t else if t < 11 then 14 + 2 * (t - 5) else 28 + 2 * (t - 11)
  }

  lemma SlotPlaces(t: nat)
    requires t < 13
    ensures SlotOffset(t) == [1, 3, 5, 7, 9, 14, 16, 18, 20, 22, 24, 28, 30][t]
  {
  }

  function Order(name: Name, j: nat): nat {
    if j == Parts(name) then j + 0x40 else j
  }

  /** `e` is the record of part `j` (counted from 1) of a name whose short form has checksum `sum`. */
  ghost predicate IsRecord(e: Entry, name: Name, sum: Byte, j: nat) {
    && 1 <= j
    && e[0] == Order(name, j)
    && e[11] == ATTR_LFN
    && e[13] == sum
    && (forall t {:trigger SlotOffset(t)} :: 0 <= t < 13 ==>
          e[SlotOffset(t)] == Char16(name, (j - 1) * 13 + t) % 256
          && e[SlotOffset(t) + 1] == Char16(name, (j - 1) * 13 + t) / 256)
  }

  /** The bytes of a record: its number, with 0x40 for the last part of the name, the attribute, the checksum, and for each of its
      thirteen places the byte of the name and a zero, behind the name one zero character, and all ones behind that. */
  lemma RecordBytes(e: Entry, name: Name, sum: Byte, j: nat, t: nat)
    requires IsRecord(e, name, sum, j) && t < 13
    ensures e[0] == (if 13 * j >= |name| > 13 * j - 13 then j + 0x40 else j) && e[11] == 0x0F && e[13] == sum
    ensures var o, ci := [1, 3, 5, 7, 9, 14, 16, 18, 20, 22, 24, 28, 30][t], 13 * (j - 1) + t;
      && e[o] == (if ci < |name| then name[ci] else if ci == |name| then 0 else 0xFF)
      && e[o + 1] == (if ci <= |name| then 0 else 0xFF)
  {
    SlotPlaces(t);
  }

  /** Writes one record, as the loop of `dir_add_entry` does: zeroed, then the three character fields. */
  method BuildRecord(name: Name, checksum: Byte, j: nat) returns (e: Entry)
    requires 1 <= |name| < MAX_NAME && 1 <= j <= Parts(name)
    ensures IsRecord(e, name, checksum, j) && e[12] == e[26] == e[27] == 0
  {
    var lfn := new Byte[ENTRY_SIZE];
    ClearBuffer(lfn);
    lfn[0] := if j == Parts(name) then j + 0x40 else j;
    lfn[11] := ATTR_LFN;
    lfn[13] := checksum;
    var base := (j - 1) * 13;
    var t := 0;
    while t < 13
      invariant 0 <= t <= 13
      invariant lfn[0] == Order(name, j) && lfn[11] == ATTR_LFN && lfn[13] == checksum
      invariant lfn[12] == lfn[26] == lfn[27] == 0
      invariant forall u {:trigger SlotOffset(u)} :: 0 <= u < t ==>
                  lfn[SlotOffset(u)] == Char16(name, base + u) % 256
                  && lfn[SlotOffset(u) + 1] == Char16(name, base + u) / 256
    {
      var c := Char16(name, base + t);
      lfn[SlotOffset(t)] := c % 256;
      lfn[SlotOffset(t) + 1] := c / 256;
      t := t + 1;
    }
    e := lfn[..];
  }

  /** The low bytes of a record's characters. */
  function Extract(e: Entry): (part: seq<Byte>)
    ensures |part| == 13
    ensures forall t {:trigger part[t]} :: 0 <= t < 13 ==> part[t] == e[SlotOffset(t)]
  {
    seq(13, t requires 0 <= t < 13 => e[SlotOffset(t)])
  }

  /** The reassembly step of a directory scan: copies a part to its place in the buffer, stopping behind a zero. */
  method StorePart(buf: array<Byte>, part: seq<Byte>, base: nat)
    requires buf.Length == MAX_NAME && |part| == 13
    modifies buf
    ensures forall k | 0 <= k < MAX_NAME :: buf[k] ==
              if Stored(part, base, k) then part[k - base] else old(buf[k])
  {
    var i := 0;
    while i < 13 && base + i < MAX_NAME - 1
      invariant 0 <= i <= 13 && (i == 0 || base + i <= MAX_NAME - 1)
      invariant forall t {:trigger part[t]} :: 0 <= t < i ==> part[t] != 0
      invariant forall k | 0 <= k < MAX_NAME :: buf[k] ==
                  if k < base + i && Stored(part, base, k) then part[k - base] else old(buf[k])
    {
      buf[base + i] := part[i];
      if part[i] == 0 {
        return;
      }
      i := i + 1;
    }
  }

  /** Slot `k` of the buffer is written by a part placed at `base`. */
  ghost predicate Stored(part: seq<Byte>, base: nat, k: nat)
    requires |part| == 13
  {
    base <= k < base + 13 && k < MAX_NAME - 1 && forall t {:trigger part[t]} :: 0 <= t < k - base ==> part[t] != 0
  }

  /** The buffer while the parts from the last down to `j` have been placed. */
  ghost predicate Reassembled(buf: seq<Byte>, name: Name, j: nat) {
    && |buf| == MAX_NAME
    && forall k {:trigger buf[k]} :: 0 <= k < MAX_NAME ==>
         buf[k] == if (j - 1) * 13 <= k < |name| then name[k] else 0
  }

  method ClearBuffer(buf: array<Byte>)
    modifies buf
    ensures forall i | 0 <= i < buf.Length :: buf[i] == 0
  {
    var n := 0;
    while n < buf.Length
      invariant 0 <= n <= buf.Length
      invariant forall i | 0 <= i < n :: buf[i] == 0
    {
      buf[n] := 0;
      n := n + 1;
    }
  }

  lemma NothingReassembled(buf: seq<Byte>, name: Name)
    requires |buf| == MAX_NAME && forall i {:trigger buf[i]} :: 0 <= i < |buf| ==> buf[i] == 0
    ensures Reassembled(buf, name, Parts(name) + 1)
  {
  }

  /** Placing part `j` of a stored name extends the reassembled tail by that part. */
  lemma PartExtendsTail(e: Entry, name: Name, sum: Byte, j: nat, before: seq<Byte>, after: seq<Byte>)
    requires 1 <= |name| < MAX_NAME && forall i {:trigger name[i]} :: 0 <= i < |name| ==> name[i] != 0
    requires 1 <= j <= Parts(name) && IsRecord(e, name, sum, j)
    requires Reassembled(before, name, j + 1) && |after| == MAX_NAME
    requires forall k | 0 <= k < MAX_NAME :: after[k] ==
               if Stored(Extract(e), (j - 1) * 13, k) then Extract(e)[k - (j - 1) * 13] else before[k]
    ensures Reassembled(after, name, j)
  {
    var part, base := Extract(e), (j - 1) * 13;
    forall k | 0 <= k < MAX_NAME
      ensures after[k] == if base <= k < |name| then name[k] else 0
    {
      if base <= k < base + 13 {
        assert forall t | 0 <= t < 13 && base + t < |name| :: part[t] == name[base + t];
        assert base + 13 > |name| ==> part[|name| - base] == 0;
      }
    }
  }

  /** The length of a zero-terminated buffer. */
  method StrLen(buf: array<Byte>) returns (n: nat)
    requires buf.Length == MAX_NAME && buf[MAX_NAME - 1] == 0
    ensures n < MAX_NAME && buf[n] == 0
    ensures forall k | 0 <= k < n :: buf[k] != 0
  {
    n := 0;
    while buf[n] != 0
      invariant 0 <= n < MAX_NAME
      invariant forall k | 0 <= k < n :: buf[k] != 0
      decreases MAX_NAME - n
    {
      n := n + 1;
    }
  }

  /** The case-blind comparison of a directory scan. */
  method MatchesBuffer(name: Name, buf: array<Byte>, ghost stored: Name) returns (match_: bool)
    requires buf.Length == MAX_NAME && Reassembled(buf[..], stored, 1)
    requires 1 <= |stored| < MAX_NAME && forall i {:trigger stored[i]} :: 0 <= i < |stored| ==> stored[i] != 0
    ensures match_ == (Fold(name) == Fold(stored))
  {
    assert forall k | 0 <= k < MAX_NAME :: buf[k] == buf[..][k];
    var nlen := |name|;
    var llen := StrLen(buf);
    assert buf[..][|stored|] == 0 && llen == |stored|;
    match_ := false;
    if nlen == llen {
      var i := 0;
      while i < nlen
        invariant 0 <= i <= nlen
        invariant forall k {:trigger name[k]} :: 0 <= k < i ==> Upper(name[k]) == Upper(stored[k])
      {
        if Upper(name[i]) != Upper(buf[i]) {
          assert Fold(name)[i] != Fold(stored)[i];
          return false;
        }
        i := i + 1;
      }
      match_ := true;
      assert forall k | 0 <= k < nlen :: Fold(name)[k] == Fold(stored)[k];
    } else {
      assert |Fold(name)| != |Fold(stored)|;
    }
  }

  /** Encoding and decoding undo each other: the records of a name, last part first, rebuild exactly the name. */
  method EncodeThenDecode(name: Name, name83: Short) returns (records: seq<Entry>, decoded: Name)
    requires 1 <= |name| < MAX_NAME && forall i {:trigger name[i]} :: 0 <= i < |name| ==> name[i] != 0
    ensures decoded == name && |records| == Parts(name)
    ensures forall i {:trigger records[i]} :: 0 <= i < |records| ==>
              IsRecord(records[i], name, Checksum(name83), Parts(name) - i)
  {
    hide IsRecord, Stored, Extract;
    var buf := new Byte[MAX_NAME];
    ClearBuffer(buf);
    NothingReassembled(buf[..], name);
    var checksum := LfnChecksum(name83);
    records := [];
    var j := Parts(name);
    while j >= 1
      invariant 0 <= j <= Parts(name) && |records| == Parts(name) - j
      invariant Reassembled(buf[..], name, j + 1)
      invariant forall i {:trigger records[i]} :: 0 <= i < |records| ==> IsRecord(records[i], name, checksum, Parts(name) - i)
    {
      var e := BuildRecord(name, checksum, j);
      ghost var before := buf[..];
      StorePart(buf, Extract(e), (j - 1) * 13);
      PartExtendsTail(e, name, checksum, j, before, buf[..]);
      records := records + [e];
      j := j - 1;
    }
    assert forall k | 0 <= k < MAX_NAME :: buf[k] == buf[..][k];
    var n := StrLen(buf);
    assert buf[..][|name|] == 0;
    decoded := buf[..n];
  }
}

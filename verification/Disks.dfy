/** The raw disk: an array of sectors, and the sequence of images it went through, which is what a power cut can leave. */
module Disks {
  import opened Bytes
  import opened Layout

  class Disk {
    const sectors: array<Sector>
    /** The image after each sector write, oldest first. */
    ghost var trace: seq<Image>

    constructor (sectors: array<Sector>)
      ensures this.sectors == sectors && trace == []
    {
      this.sectors := sectors;
      trace := [];
    }

    method Read(lba: nat) returns (s: Sector)
      requires lba < sectors.Length
      ensures s == sectors[lba]
    {
      s := sectors[lba];
    }

    method Write(lba: nat, s: Sector)
      requires lba < sectors.Length
      modifies this, sectors
      ensures sectors[..] == old(sectors[..])[lba := s]
      ensures trace == old(trace) + [sectors[..]]
    {
      sectors[lba] := s;
      trace := trace + [sectors[..]];
    }
  }
}

/** The disk as the file system sees it: an array of fixed-size sectors. */
module Sectors {
  import opened Bytes

  const SECTOR_SIZE := 128
  const NUM_SECTORS := 1024

  type Sector = s: seq<byte> | |s| == 128 witness seq(128, i => 0)

  const ZEROES: Sector := seq(128, i => 0)

  type Image = d: seq<Sector> | |d| == 1024 witness seq<Sector>(1024, i => ZEROES)

  /** SynchDisk: whole sectors are read and written one at a time. */
  class SynchDisk {
    var image: Image

    constructor (contents: Image)
      ensures image == contents
    {
      image := contents;
    }

    /** Copies a sector into `data` at offset `at`. */
    method ReadSector(sectorNumber: int, data: array<byte>, at: nat)
      requires 0 <= sectorNumber < NUM_SECTORS && at + SECTOR_SIZE <= data.Length
      modifies data
      ensures data[at..at + SECTOR_SIZE] == image[sectorNumber]
      ensures forall k :: 0 <= k < data.Length && !(at <= k < at + SECTOR_SIZE) ==> data[k] == old(data[k])
    {
      var s := image[sectorNumber];
      forall k | 0 <= k < SECTOR_SIZE {
        data[at + k] := s[k];
      }
      assert forall k :: 0 <= k < SECTOR_SIZE ==> data[at..at + SECTOR_SIZE][k] == s[k];
    }

    /** Overwrites a sector with the bytes of `data` at offset `at`. */
    method WriteSector(sectorNumber: int, data: array<byte>, at: nat)
      requires 0 <= sectorNumber < NUM_SECTORS && at + SECTOR_SIZE <= data.Length
      modifies this
      ensures image == old(image)[sectorNumber := data[at..at + SECTOR_SIZE]]
    {
      image := image[sectorNumber := data[at..at + SECTOR_SIZE]];
    }
  }
}

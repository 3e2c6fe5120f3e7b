/** FileHeader: the one-sector record of a file's length and data sectors. */
module FileHeaders {
  import opened Bytes
  import opened BitMaps
  import opened Sectors

  const NUM_DIRECT := 30
  const MAX_FILE_SIZE := NUM_DIRECT * SECTOR_SIZE

  /** A header's value; the entries past `numSectors` are whatever was in memory. */
  datatype Header = Header(numBytes: int32, numSectors: int32, dataSectors: seq<int32>)

  type Pointers = s: seq<int32> | |s| == NUM_DIRECT witness seq(NUM_DIRECT, i => 0)

  ghost predicate Sized(h: Header) {
    |h.dataSectors| == NUM_DIRECT
  }

  /** The number of sectors that `n` bytes need. */
  function DivRoundUp(n: nat): (r: nat)
    ensures n <= r * SECTOR_SIZE < n + SECTOR_SIZE
  {
    n / SECTOR_SIZE + if n % SECTOR_SIZE > 0 then 1 else 0
  }

  /** A header that describes a file: consistent sizes and distinct data sectors on the disk. */
  ghost predicate Good(h: Header) {
    && Sized(h)
    && 0 <= h.numBytes <= MAX_FILE_SIZE
    && h.numSectors == DivRoundUp(h.numBytes)
    && (forall i :: 0 <= i < h.numSectors ==> 0 <= h.dataSectors[i] < NUM_SECTORS)
    && (forall i, j :: 0 <= i < j < h.numSectors ==> h.dataSectors[i] != h.dataSectors[j])
  }

  /** The data sectors in use. */
  function Data(h: Header): seq<int32>
    requires 0 <= h.numSectors <= |h.dataSectors|
  {
    h.dataSectors[..h.numSectors]
  }

  // The sector image of a header.

  function HeaderWords(h: Header): (ws: seq<uint32>)
    ensures |ws| == 2 + |h.dataSectors|
  {
    [Unsigned(h.numBytes), Unsigned(h.numSectors)]
      + seq(|h.dataSectors|, i requires 0 <= i < |h.dataSectors| => Unsigned(h.dataSectors[i]))
  }

  function Encode(h: Header): (s: Sector)
    requires Sized(h)
  {
    Words(HeaderWords(h))
  }

  function Decode(s: Sector): (h: Header)
    ensures Sized(h)
  {
    Header(Signed(WordAt(s, 0)), Signed(WordAt(s, 1)),
           seq(NUM_DIRECT, i requires 0 <= i < NUM_DIRECT => Signed(WordAt(s, i + 2))))
  }

  /** The sector holds the length, the number of data sectors and their numbers, a word each. */
  lemma HeaderLayout(s: Sector)
    ensures var h := Decode(s);
            && Unsigned(h.numBytes) == FromLe(s[0..4]) && Unsigned(h.numSectors) == FromLe(s[4..8])
            && (forall i :: 0 <= i < 30 ==> Unsigned(h.dataSectors[i]) == FromLe(s[4 * i + 8..4 * i + 12]))
  {
    forall u: uint32
      ensures Unsigned(Signed(u)) == u
    {
      SameBits(0, u);
    }
    forall i | 0 <= i < 30
      ensures Unsigned(Decode(s).dataSectors[i]) == FromLe(s[4 * i + 8..4 * i + 12])
    {
      assert 4 * (i + 2) == 4 * i + 8;
    }
  }

  /** A header written to a sector is read back unchanged. */
  lemma HeaderRoundTrip(h: Header)
    requires Sized(h)
    ensures Decode(Encode(h)) == h
  {
    var ws := HeaderWords(h);
    WordsRoundTrip(ws, 0);
    WordsRoundTrip(ws, 1);
    forall i | 0 <= i < NUM_DIRECT
      ensures Decode(Encode(h)).dataSectors[i] == h.dataSectors[i]
    {
      WordsRoundTrip(ws, i + 2);
    }
  }

  class FileHeader {
    var numBytes: int32
    var numSectors: int32
    var dataSectors: Pointers

    ghost function Value(): (h: Header)
      reads this
      ensures Sized(h)
    {
      Header(numBytes, numSectors, dataSectors)
    }

    /** Leaves the header uninitialised. */
    constructor () {
    }

    method FetchFrom(disk: SynchDisk, sector: int)
      requires 0 <= sector < NUM_SECTORS
      modifies this
      ensures Value() == Decode(disk.image[sector])
    {
      var h := Decode(disk.image[sector]);
      numBytes, numSectors, dataSectors := h.numBytes, h.numSectors, h.dataSectors;
    }

    method WriteBack(disk: SynchDisk, sector: int)
      requires 0 <= sector < NUM_SECTORS
      modifies disk
      ensures disk.image == old(disk.image)[sector := Encode(Value())]
    {
      disk.image := disk.image[sector := Encode(Header(numBytes, numSectors, dataSectors))];
    }

    /** Reserves first-fit data sectors for a file of `fileSize` bytes, if there are enough. */
    method Allocate(freeMap: BitMap, fileSize: nat) returns (ok: bool)
      requires freeMap.Valid() && freeMap.numBits == NUM_SECTORS && fileSize <= MAX_FILE_SIZE
      modifies this, freeMap.words
      ensures ok == (DivRoundUp(fileSize) <= |Clear(old(freeMap.Bits()))|)
      ensures !ok ==> freeMap.Bits() == old(freeMap.Bits())
      ensures ok ==> numBytes == fileSize && Good(Value())
      ensures ok ==> Taken(old(freeMap.Bits()), Data(Value()), freeMap.Bits())
                     && FirstFit(Data(Value()), freeMap.Bits())
    {
      hide BitsOf, Clear, FirstFit;
      numBytes := fileSize;
      numSectors := DivRoundUp(fileSize);
      var free := freeMap.NumClear();
      if free < numSectors {
        return false;
      }
      ghost var before := freeMap.Bits();
      NothingTaken(before, dataSectors[..0]);
      var i := 0;
      while i < numSectors
        invariant 0 <= i <= numSectors == DivRoundUp(fileSize) && numBytes == fileSize
        invariant |Clear(freeMap.Bits())| == free - i
        invariant Taken(before, dataSectors[..i], freeMap.Bits()) && FirstFit(dataSectors[..i], freeMap.Bits())
      {
        ghost var mid := freeMap.Bits();
        ghost var taken := dataSectors[..i];
        var s := freeMap.Find();
        NoneClear(mid);
        MarkTakesOne(mid, s);
        dataSectors := dataSectors[i := s];
        TakeOneMore(before, taken, mid, s);
        assert dataSectors[..i + 1] == taken + [s];
        i := i + 1;
      }
      return true;
    }

    /** Clears every data sector; each is marked when its turn comes, so the source's assertion holds. */
    method Deallocate(freeMap: BitMap)
      requires Good(Value()) && freeMap.Valid() && freeMap.numBits == NUM_SECTORS
      requires forall i :: 0 <= i < numSectors ==> freeMap.Bits()[dataSectors[i]]
      modifies freeMap.words
      ensures forall s :: 0 <= s < NUM_SECTORS ==>
                (freeMap.Bits()[s] <==> old(freeMap.Bits())[s] && s !in Data(Value()))
    {
      for i := 0 to numSectors
        invariant forall s :: 0 <= s < NUM_SECTORS ==>
                    (freeMap.Bits()[s] <==> old(freeMap.Bits())[s] && s !in dataSectors[..i])
      {
        var marked := freeMap.Test(dataSectors[i]);
        assert marked;
        freeMap.ClearBit(dataSectors[i]);
        assert dataSectors[..i + 1] == dataSectors[..i] + [dataSectors[i]];
      }
    }
  }
}

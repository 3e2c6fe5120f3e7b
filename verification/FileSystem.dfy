/** FileSystem: format, Create, Open and Remove, each working on in-memory copies of the bitmap and
    directory that are written back at the end. */
module FileSystems {
  import opened Bytes
  import opened BitMaps
  import opened Sectors
  import opened FileHeaders
  import opened OpenFiles
  import opened Directories
  import opened DiskLayout
  import opened FileSystemSteps
  import opened FileSystemRefinement
  import opened FileSystemRuns

  /** BitMap::FetchFrom, for the free-sector map. */
  method FetchMap(disk: SynchDisk, file: OpenFile, freeMap: BitMap)
    requires freeMap.Valid() && freeMap.numBits == NUM_SECTORS
    requires SystemOk(disk.image) && file.hdr.Value() == MapHdr(disk.image)
    modifies freeMap.words
    ensures freeMap.Bits() == FreeBits(disk.image)
  {
    hide BitsOf;
    var raw := new byte[4 * freeMap.numWords];
    ghost var c := Contents(disk.image, file.hdr.Value());
    var n := file.ReadAt(disk, raw, 0, 4 * freeMap.numWords, 0);
    assert raw[..] == c by {
      assert raw[0..n] == raw[..] && c[0..n] == c;
    }
    var ws := WordsFromBytes(raw[..]);
    forall i | 0 <= i < freeMap.numWords {
      freeMap.words[i] := ws[i];
    }
    assert freeMap.words[..] == ws;
  }

  /** BitMap::WriteBack, for the free-sector map. */
  method WriteBackMap(disk: SynchDisk, file: OpenFile, freeMap: BitMap)
    requires freeMap.Valid() && freeMap.numBits == NUM_SECTORS
    requires SystemOk(disk.image) && file.hdr.Value() == MapHdr(disk.image)
    modifies disk
    ensures Committed(old(disk.image), disk.image, old(Table(disk.image)), freeMap.Bits(), {})
  {
    hide BitsOf, Committed, Table, SystemOk, WordBytes, Written, Good, Hdr;
    ghost var d := disk.image;
    var b := WordBytes(freeMap.words[..]);
    var raw := new byte[|b|](i requires 0 <= i < |b| => b[i]);
    assert raw[..] == b;
    MapFileLength(d);
    var n, garbage := file.WriteAt(disk, raw, 4 * freeMap.numWords, 0);
    assert raw[..n] == b;
    MapFlushed(d, disk.image, freeMap.words[..]);
  }

  lemma MapFileLength(d: Image)
    requires SystemOk(d)
    ensures Good(MapHdr(d)) && MapHdr(d).numBytes == FREE_MAP_FILE_SIZE
    ensures Good(DirHdr(d)) && DirHdr(d).numBytes == DIRECTORY_FILE_SIZE
  {
  }

  lemma TableIsDecoded(d: Image)
    requires SystemOk(d)
    ensures Table(d) == DecodeTable(Contents(d, DirHdr(d)), NUM_DIR_ENTRIES)
  {
  }

  /** Listed header sectors are sector numbers, so the -1 of a failed lookup is unambiguous. */
  lemma SectorsListed(d: Image, key: seq<byte>)
    requires Inv(d)
    ensures var i := Lookup(Table(d), key, 0); i != -1 ==> 0 <= Table(d)[i].sector < NUM_SECTORS
  {
    hide Table, FreeBits, MapExact;
    var i := Lookup(Table(d), key, 0);
    if i != -1 {
      assert EntryGood(d, Table(d)[i]);
    }
  }

  lemma ClearIsFree(d: Image, s: int)
    requires Inv(d) && 0 <= s < NUM_SECTORS && !FreeBits(d)[s]
    ensures s !in SystemExtent(d)
  {
    hide FreeBits, Table, EntriesOk, SystemOk, SystemExtent;
    NotInUse(d, Table(d), s);
  }

  lemma HeaderOutsideSystem(d: Image, d': Image, t: seq<DirectoryEntry>, bits: seq<bool>, s: int)
    requires Committed(d, d', t, bits, {}) && s !in SystemExtent(d)
    ensures Hdr(d', s) == Hdr(d, s)
  {
    hide SystemOk, Table, FreeBits;
    SameHeader(d, d', {} + MapData(d) + DirData(d), s);
  }

  class FileSystem {
    const disk: SynchDisk
    const freeMapFile: OpenFile
    const directoryFile: OpenFile

    /** The layout is intact and the two cached headers are the ones on disk. */
    ghost predicate Valid()
      reads disk, freeMapFile.hdr, directoryFile.hdr
    {
      && Inv(disk.image)
      && freeMapFile.hdr.Value() == MapHdr(disk.image)
      && directoryFile.hdr.Value() == DirHdr(disk.image)
    }

    /** Opens the two system files of a disk formatted earlier. */
    constructor Mount(d: SynchDisk)
      requires Inv(d.image)
      ensures Valid() && disk == d && disk.image == old(d.image)
    {
      var m := new OpenFile(d, FREE_MAP_SECTOR);
      var t := new OpenFile(d, DIRECTORY_SECTOR);
      disk, freeMapFile, directoryFile := d, m, t;
    }

    /** Formats a disk of arbitrary content: two headers, the map and an empty directory. */
    constructor Format(d: SynchDisk)
      modifies d
      ensures Valid() && disk == d
      ensures Abs(disk.image) == map[] && Free(disk.image) == NUM_SECTORS - 5
    {
      hide BitsOf, FreeBits, Table, SystemOk, Inv, SystemLayout;
      var freeMap, directory, mapHdr, dirHdr := Layout();
      WriteHeaders(d, mapHdr, dirHdr, freeMap);
      var m := new OpenFile(d, FREE_MAP_SECTOR);
      var t := new OpenFile(d, DIRECTORY_SECTOR);
      WriteFiles(d, m, t, directory, freeMap);
      Formatted(d.image, mapHdr.Value(), dirHdr.Value());
      disk, freeMapFile, directoryFile := d, m, t;
    }

    /** The two headers go to the sectors reserved for them. */
    static method WriteHeaders(d: SynchDisk, mapHdr: FileHeader, dirHdr: FileHeader, ghost freeMap: BitMap)
      requires freeMap.Valid() && SystemLayout(mapHdr.Value(), dirHdr.Value(), freeMap.Bits())
      modifies d
      ensures MapHdr(d.image) == mapHdr.Value() && DirHdr(d.image) == dirHdr.Value() && SystemOk(d.image)
    {
      hide BitsOf, Extent, Encode, SystemOk, MapHdr, DirHdr;
      mapHdr.WriteBack(d, FREE_MAP_SECTOR);
      dirHdr.WriteBack(d, DIRECTORY_SECTOR);
      HeadersWritten(old(d.image), mapHdr.Value(), dirHdr.Value());
    }

    /** The first version of the map and of the directory. */
    static method WriteFiles(d: SynchDisk, m: OpenFile, t: OpenFile, directory: Directory, freeMap: BitMap)
      requires SystemOk(d.image) && m.hdr.Value() == MapHdr(d.image) && t.hdr.Value() == DirHdr(d.image)
      requires directory.Valid() && directory.tableSize == NUM_DIR_ENTRIES
      requires freeMap.Valid() && freeMap.numBits == NUM_SECTORS
      modifies d
      ensures MapHdr(d.image) == old(MapHdr(d.image)) && DirHdr(d.image) == old(DirHdr(d.image)) && SystemOk(d.image)
      ensures Table(d.image) == directory.table[..] && FreeBits(d.image) == freeMap.Bits()
    {
      hide BitsOf, FreeBits, Table, SystemOk, Committed, Written, WordBytes;
      ghost var d1 := d.image;
      WriteBackMap(d, m, freeMap);
      ghost var d2 := d.image;
      KeepsSystemHeaders(d1, d2, Table(d1), freeMap.Bits(), {});
      MapFileLength(d2);
      directory.WriteBack(d, t);
      TableFlushed(d2, d.image, directory.table[..]);
      KeepsSystemHeaders(d2, d.image, directory.table[..], freeMap.Bits(), {});
    }

    /** The in-memory half of formatting: sectors 0 and 1 and the two files' data are reserved. */
    static method Layout() returns (freeMap: BitMap, directory: Directory, mapHdr: FileHeader, dirHdr: FileHeader)
      ensures freeMap.Valid() && freeMap.numBits == NUM_SECTORS
      ensures directory.Valid() && directory.tableSize == NUM_DIR_ENTRIES
      ensures forall i :: 0 <= i < NUM_DIR_ENTRIES ==> !directory.table[i].inUse
      ensures SystemLayout(mapHdr.Value(), dirHdr.Value(), freeMap.Bits())
    {
      hide BitsOf, Clear;
      freeMap := new BitMap(NUM_SECTORS);
      directory := new Directory(NUM_DIR_ENTRIES);
      mapHdr := new FileHeader();
      dirHdr := new FileHeader();
      freeMap.Mark(FREE_MAP_SECTOR);
      freeMap.Mark(DIRECTORY_SECTOR);
      MostlyClear(freeMap.Bits());
      ghost var b0 := freeMap.Bits();
      var ok := mapHdr.Allocate(freeMap, FREE_MAP_FILE_SIZE);
      assert ok;
      ghost var b1 := freeMap.Bits();
      StillMostlyClear(b0, mapHdr.Value(), b1);
      ok := dirHdr.Allocate(freeMap, DIRECTORY_FILE_SIZE);
      assert ok;
      LaidOut(b0, mapHdr.Value(), b1, dirHdr.Value(), freeMap.Bits());
    }

    method FetchDirectory() returns (directory: Directory)
      requires Valid()
      ensures fresh(directory.table) && directory.Valid() && directory.tableSize == NUM_DIR_ENTRIES
      ensures directory.table[..] == Table(disk.image)
    {
      hide Table, FreeBits, EntriesOk, MapExact;
      MapFileLength(disk.image);
      directory := new Directory(NUM_DIR_ENTRIES);
      directory.FetchFrom(disk, directoryFile);
      TableIsDecoded(disk.image);
    }

    method FetchFreeMap() returns (freeMap: BitMap)
      requires Valid()
      ensures fresh(freeMap.words) && freeMap.Valid() && freeMap.numBits == NUM_SECTORS
      ensures freeMap.Bits() == FreeBits(disk.image)
    {
      hide Table, FreeBits, EntriesOk, MapExact, BitsOf;
      freeMap := new BitMap(NUM_SECTORS);
      FetchMap(disk, freeMapFile, freeMap);
    }

    /** Creates a file of fixed size, or changes nothing at all. */
    method Create(name: CString, initialSize: nat) returns (success: bool)
      requires Valid() && initialSize <= MAX_FILE_SIZE
      modifies disk
      ensures Valid()
      ensures success == CanCreate(old(disk.image), name, initialSize)
      ensures Step(old(disk.image), FileSystemRuns.Create(name, initialSize), disk.image)
    {
      hide BitsOf, FreeBits, Table, SystemOk, EntriesOk, MapExact, Good, Taken, FirstFit, Clear, Extent, SystemExtent;
      ghost var d := disk.image;
      var directory := FetchDirectory();
      var found := directory.Find(name);
      SectorsListed(d, Key(name));
      if found != -1 {
        return false;
      }
      var ok, sector, freeMap, hdr := Reserve(directory, name, initialSize);
      if !ok {
        return false;
      }
      ClearIsFree(d, sector);
      Commit(hdr, sector, directory, freeMap);
      assert Created(d, disk.image, name, initialSize);
      StepRefines(d, FileSystemRuns.Create(name, initialSize), disk.image);
      return true;
    }

    /** In memory: a header sector, a directory slot and the data sectors, if there are all three. */
    method Reserve(directory: Directory, name: CString, initialSize: nat)
      returns (ok: bool, sector: int, freeMap: BitMap, hdr: FileHeader)
      requires Valid() && initialSize <= MAX_FILE_SIZE
      requires directory.Valid() && directory.tableSize == NUM_DIR_ENTRIES
      requires directory.table[..] == Table(disk.image) && Lookup(Table(disk.image), Key(name), 0) == -1
      modifies directory.table
      ensures directory.Valid() && freeMap.Valid() && freeMap.numBits == NUM_SECTORS
      ensures ok == CanCreate(disk.image, name, initialSize)
      ensures ok ==> && Slot(disk.image) != -1 && sector == NewSector(disk.image) && 0 <= sector < NUM_SECTORS
                     && !FreeBits(disk.image)[sector] && Good(hdr.Value()) && hdr.numBytes == initialSize
      ensures ok ==> directory.table[..] == var t, i := Table(disk.image), Slot(disk.image);
                                            t[i := Filled(t[i], name, sector)]
      ensures ok ==> Taken(FreeBits(disk.image)[sector := true], Data(hdr.Value()), freeMap.Bits())
                     && FirstFit(Data(hdr.Value()), freeMap.Bits())
    {
      hide BitsOf, FreeBits, Table, SystemOk, EntriesOk, MapExact, Good, Taken, FirstFit, Clear;
      ghost var bits := FreeBits(disk.image);
      hdr := new FileHeader();
      freeMap := FetchFreeMap();
      sector := freeMap.Find();
      NoneClear(bits);
      if sector == -1 {
        return false, sector, freeMap, hdr;
      }
      MarkTakesOne(bits, sector);
      ok := directory.Add(name, sector);
      if ok {
        ok := hdr.Allocate(freeMap, initialSize);
      }
    }

    /** Flushes the new header, the directory and the map, in that order. */
    method Commit(hdr: FileHeader, sector: int, directory: Directory, freeMap: BitMap)
      requires SystemOk(disk.image)
      requires freeMapFile.hdr.Value() == MapHdr(disk.image) && directoryFile.hdr.Value() == DirHdr(disk.image)
      requires 0 <= sector < NUM_SECTORS && sector !in SystemExtent(disk.image)
      requires directory.Valid() && directory.tableSize == NUM_DIR_ENTRIES
      requires freeMap.Valid() && freeMap.numBits == NUM_SECTORS
      modifies disk
      ensures Committed(old(disk.image), disk.image, directory.table[..], freeMap.Bits(), {sector})
      ensures Hdr(disk.image, sector) == hdr.Value()
    {
      hide BitsOf, Table, FreeBits, SystemOk, Extent, Encode;
      ghost var d0 := disk.image;
      hdr.WriteBack(disk, sector);
      HeaderFlushed(d0, hdr.Value(), sector);
      ghost var d1 := disk.image;
      MapFileLength(d1);
      directory.WriteBack(disk, directoryFile);
      ghost var d2 := disk.image;
      TableFlushed(d1, d2, directory.table[..]);
      WriteBackMap(disk, freeMapFile, freeMap);
      ghost var d3 := disk.image;
      CommitsCompose(d0, d1, d2, Table(d0), FreeBits(d0), {sector}, directory.table[..], FreeBits(d1), {});
      CommitsCompose(d0, d2, d3, directory.table[..], FreeBits(d1), {sector} + {}, directory.table[..],
          freeMap.Bits(), {});
      assert {sector} + {} + {} == {sector};
      CommitsCompose(d1, d2, d3, directory.table[..], FreeBits(d1), {}, directory.table[..], freeMap.Bits(), {});
      ghost var none: set<int> := {};
      assert none + none == none;
      HeaderOutsideSystem(d1, d3, directory.table[..], freeMap.Bits(), sector);
    }

    /** Deletes a file, clearing exactly its sectors, or reports that it is not listed. */
    method Remove(name: CString) returns (success: bool)
      requires Valid()
      modifies disk
      ensures Valid()
      ensures success == (Lookup(old(Table(disk.image)), Key(name), 0) != -1)
      ensures Step(old(disk.image), FileSystemRuns.Remove(name), disk.image)
    {
      hide BitsOf, FreeBits, Table, SystemOk, EntriesOk, MapExact, Good, Extent, SystemExtent, EntryExtent,
           Committed, Data;
      ghost var d := disk.image;
      var directory := FetchDirectory();
      var sector := directory.Find(name);
      SectorsListed(d, Key(name));
      if sector == -1 {
        return false;
      }
      ghost var i := Lookup(Table(d), Key(name), 0);
      var freeMap := FetchFreeMap();
      Release(sector, freeMap, i);
      var removed := directory.Remove(name);
      Flush(directory, freeMap);
      KeepsSystemHeaders(d, disk.image, directory.table[..], freeMap.Bits(), {});
      assert Removed(d, disk.image, name);
      StepRefines(d, FileSystemRuns.Remove(name), disk.image);
      return true;
    }

    /** Clears the data sectors of the file whose header is at `sector`, and then that sector. */
    method Release(sector: int, freeMap: BitMap, ghost i: nat)
      requires Valid() && i < NUM_DIR_ENTRIES && Table(disk.image)[i].inUse && Table(disk.image)[i].sector == sector
      requires freeMap.Valid() && freeMap.numBits == NUM_SECTORS && freeMap.Bits() == FreeBits(disk.image)
      modifies freeMap.words
      ensures forall s :: 0 <= s < NUM_SECTORS ==>
                (freeMap.Bits()[s] <==> FreeBits(disk.image)[s] && s !in EntryExtent(disk.image, Table(disk.image)[i]))
    {
      hide BitsOf, FreeBits, Table, SystemOk, EntriesOk, MapExact, Good, Extent, SystemExtent, EntryExtent, Data;
      SectorsAreMarked(disk.image, i);
      var fileHdr := new FileHeader();
      fileHdr.FetchFrom(disk, sector);
      fileHdr.Deallocate(freeMap);
      freeMap.ClearBit(sector);
      ClearedExactly(disk.image, i, freeMap.Bits());
    }

    /** Flushes the map and then the directory. */
    method Flush(directory: Directory, freeMap: BitMap)
      requires SystemOk(disk.image)
      requires freeMapFile.hdr.Value() == MapHdr(disk.image) && directoryFile.hdr.Value() == DirHdr(disk.image)
      requires directory.Valid() && directory.tableSize == NUM_DIR_ENTRIES
      requires freeMap.Valid() && freeMap.numBits == NUM_SECTORS
      modifies disk
      ensures Committed(old(disk.image), disk.image, directory.table[..], freeMap.Bits(), {})
    {
      hide BitsOf, Table, FreeBits, SystemOk, Extent;
      ghost var d0 := disk.image;
      WriteBackMap(disk, freeMapFile, freeMap);
      ghost var d1 := disk.image;
      MapFileLength(d1);
      directory.WriteBack(disk, directoryFile);
      TableFlushed(d1, disk.image, directory.table[..]);
      CommitsCompose(d0, d1, disk.image, Table(d0), freeMap.Bits(), {}, directory.table[..], freeMap.Bits(), {});
      ghost var none: set<int> := {};
      assert none + none == none;
    }

    /** A handle on the named file, caching the header found on disk. */
    method Open(name: CString) returns (file: OpenFile?)
      requires Valid()
      ensures file != null <==> Key(name) in Abs(disk.image)
      ensures file != null ==> fresh(file) && file.seekPosition == 0 && Good(file.hdr.Value())
      ensures file != null ==> Contents(disk.image, file.hdr.Value()) == Abs(disk.image)[Key(name)]
      ensures file != null ==> var i := Lookup(Table(disk.image), Key(name), 0);
                               i != -1 && file.hdr.Value() == Hdr(disk.image, Table(disk.image)[i].sector)
    {
      hide Table, FreeBits, EntriesOk, MapExact, Abs, Contents;
      var directory := FetchDirectory();
      var sector := directory.Find(name);
      SectorsListed(disk.image, Key(name));
      LookupIsAbs(disk.image, Key(name));
      file := null;
      if sector >= 0 {
        file := new OpenFile(disk, sector);
      }
    }
  }

  /** Every sector of a listed file is marked and its header is good. */
  lemma SectorsAreMarked(d: Image, i: nat)
    requires Inv(d) && i < NUM_DIR_ENTRIES && Table(d)[i].inUse
    ensures var s := Table(d)[i].sector;
            && 0 <= s < NUM_SECTORS && Good(Decode(d[s]))
            && forall k :: 0 <= k < Decode(d[s]).numSectors ==> FreeBits(d)[Decode(d[s]).dataSectors[k]]
  {
    hide FreeBits, Table, SystemExtent, SystemOk;
    var e := Table(d)[i];
    assert EntryGood(d, e);
    var h := Hdr(d, e.sector);
    forall k | 0 <= k < h.numSectors
      ensures FreeBits(d)[h.dataSectors[k]]
    {
      assert h.dataSectors[k] in EntryExtent(d, e);
      assert InUse(d, Table(d), h.dataSectors[k]);
    }
  }

  /** Clearing the data sectors and then the header sector clears the file's extent. */
  lemma ClearedExactly(d: Image, i: nat, bits: seq<bool>)
    requires Inv(d) && i < NUM_DIR_ENTRIES && Table(d)[i].inUse && |bits| == NUM_SECTORS
    requires var e := Table(d)[i];
             && 0 <= e.sector < NUM_SECTORS && Good(Decode(d[e.sector]))
             && forall s :: 0 <= s < NUM_SECTORS ==>
                              (bits[s] <==> s != e.sector && FreeBits(d)[s] && s !in Data(Decode(d[e.sector])))
    ensures forall s :: 0 <= s < NUM_SECTORS ==> (bits[s] <==> FreeBits(d)[s] && s !in EntryExtent(d, Table(d)[i]))
  {
    hide FreeBits, Table, SystemExtent, SystemOk, Extent, MapExact;
    var e := Table(d)[i];
    assert EntryGood(d, e);
    ExtentData(Hdr(d, e.sector), e.sector);
    ExtentHasHeader(Hdr(d, e.sector), e.sector);
    forall s | 0 <= s < NUM_SECTORS
      ensures s in EntryExtent(d, e) <==> s == e.sector || s in Data(Hdr(d, e.sector))
    {
      assert s in Extent(Hdr(d, e.sector), e.sector) - {e.sector} <==> s in Data(Hdr(d, e.sector));
    }
  }

  lemma KeepsSystemHeaders(d: Image, d': Image, t: seq<DirectoryEntry>, bits: seq<bool>, touched: set<int>)
    requires Committed(d, d', t, bits, touched)
    ensures MapHdr(d') == MapHdr(d) && DirHdr(d') == DirHdr(d) && SystemOk(d') && Table(d') == t && FreeBits(d') == bits
  {
  }

  // Formatting.

  /** The map marks the two headers and their data, which are disjoint. */
  ghost predicate SystemLayout(mapH: Header, dirH: Header, bits: seq<bool>) {
    && |bits| == NUM_SECTORS
    && Good(mapH) && mapH.numBytes == FREE_MAP_FILE_SIZE && Good(dirH) && dirH.numBytes == DIRECTORY_FILE_SIZE
    && FREE_MAP_SECTOR !in Data(mapH) && DIRECTORY_SECTOR !in Data(dirH)
    && Extent(mapH, FREE_MAP_SECTOR) !! Extent(dirH, DIRECTORY_SECTOR)
    && (forall s :: 0 <= s < NUM_SECTORS ==>
                      (bits[s] <==> s in Extent(mapH, FREE_MAP_SECTOR) || s in Extent(dirH, DIRECTORY_SECTOR)))
  }

  lemma MostlyClear(bits: seq<bool>)
    requires |bits| == NUM_SECTORS && (forall s :: 0 <= s < NUM_SECTORS ==> (bits[s] <==> s == 0 || s == 1))
    ensures |Clear(bits)| == NUM_SECTORS - 2
  {
    assert Marked(bits) == {0, 1};
    ClearPlusMarked(bits);
  }

  lemma StillMostlyClear(b0: seq<bool>, h: Header, b1: seq<bool>)
    requires |b0| == NUM_SECTORS && Good(h) && h.numSectors == 1 && Taken(b0, Data(h), b1)
    ensures |Clear(b1)| == |Clear(b0)| - 1
  {
    var s := Data(h)[0];
    assert b1 == b0[s := true];
    MarkTakesOne(b0, s);
  }

  lemma DataSectors(h: Header, s: int, x: int)
    requires Good(h) && s !in Data(h)
    ensures x in Extent(h, s) <==> x == s || x in Data(h)
  {
    ExtentData(h, s);
    assert x in Extent(h, s) - {s} <==> x in Data(h);
  }

  lemma LaidOut(b0: seq<bool>, mapH: Header, b1: seq<bool>, dirH: Header, b2: seq<bool>)
    requires |b0| == NUM_SECTORS && (forall s :: 0 <= s < NUM_SECTORS ==> (b0[s] <==> s == 0 || s == 1))
    requires Good(mapH) && mapH.numBytes == FREE_MAP_FILE_SIZE && Taken(b0, Data(mapH), b1)
    requires Good(dirH) && dirH.numBytes == DIRECTORY_FILE_SIZE && Taken(b1, Data(dirH), b2)
    ensures SystemLayout(mapH, dirH, b2)
  {
    hide Extent;
    assert forall x :: x in Data(mapH) ==> 0 <= x < NUM_SECTORS && !b0[x] && b1[x];
    assert forall x :: x in Data(dirH) ==> 0 <= x < NUM_SECTORS && !b1[x];
    forall x
      ensures x in Extent(mapH, FREE_MAP_SECTOR) <==> x == FREE_MAP_SECTOR || x in Data(mapH)
      ensures x in Extent(dirH, DIRECTORY_SECTOR) <==> x == DIRECTORY_SECTOR || x in Data(dirH)
    {
      DataSectors(mapH, FREE_MAP_SECTOR, x);
      DataSectors(dirH, DIRECTORY_SECTOR, x);
    }
  }

  lemma HeadersWritten(d: Image, mapH: Header, dirH: Header)
    requires Sized(mapH) && Sized(dirH)
    requires Good(mapH) && mapH.numBytes == FREE_MAP_FILE_SIZE && Good(dirH) && dirH.numBytes == DIRECTORY_FILE_SIZE
    requires FREE_MAP_SECTOR !in Data(mapH) && DIRECTORY_SECTOR !in Data(dirH)
    requires Extent(mapH, FREE_MAP_SECTOR) !! Extent(dirH, DIRECTORY_SECTOR)
    ensures var d' := d[FREE_MAP_SECTOR := Encode(mapH)][DIRECTORY_SECTOR := Encode(dirH)];
            MapHdr(d') == mapH && DirHdr(d') == dirH && SystemOk(d')
  {
    hide Extent, Good;
    HeaderRoundTrip(mapH);
    HeaderRoundTrip(dirH);
  }

  /** A freshly formatted disk satisfies the invariant, lists nothing and has five sectors in use. */
  lemma Formatted(d: Image, mapH: Header, dirH: Header)
    requires SystemOk(d) && MapHdr(d) == mapH && DirHdr(d) == dirH
    requires SystemLayout(mapH, dirH, FreeBits(d))
    requires forall i :: 0 <= i < NUM_DIR_ENTRIES ==> !Table(d)[i].inUse
    ensures Inv(d) && Abs(d) == map[] && Free(d) == NUM_SECTORS - 5
  {
    hide FreeBits, Table, Extent, Contents, Good;
    forall s | 0 <= s < NUM_SECTORS
      ensures FreeBits(d)[s] <==> InUse(d, Table(d), s)
    {
    }
    assert EntriesOk(d, Table(d));
    FreePlusOwned(d);
    NothingNeeded(d, NUM_DIR_ENTRIES);
  }

  lemma {:induction false} NothingNeeded(d: Image, n: nat)
    requires Inv(d) && n <= NUM_DIR_ENTRIES && (forall i :: 0 <= i < NUM_DIR_ENTRIES ==> !Table(d)[i].inUse)
    ensures Needed(d, n) == 5
  {
    hide FreeBits, Table, Inv, SystemOk;
    if n > 0 {
      NothingNeeded(d, n - 1);
    }
  }
}

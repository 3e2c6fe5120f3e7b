/** The file system refines a map from name keys to byte sequences with a count of free sectors,
    over every run of Create, Remove and WriteAt. */
module FileSystemRefinement {
  import opened Bytes
  import opened BitMaps
  import opened Sectors
  import opened FileHeaders
  import opened OpenFiles
  import opened Directories
  import opened DiskLayout
  import opened FileSystemSteps

  // The abstraction, entry by entry.

  lemma AbsOfEntry(d: Image, i: nat)
    requires Inv(d) && i < NUM_DIR_ENTRIES && Table(d)[i].inUse
    ensures Key(Table(d)[i].name) in Abs(d)
    ensures Good(Hdr(d, Table(d)[i].sector))
    ensures Abs(d)[Key(Table(d)[i].name)] == Contents(d, Hdr(d, Table(d)[i].sector))
  {
    hide Table, FreeBits, Contents, Extent, MapExact;
    assert EntryGood(d, Table(d)[i]);
  }

  lemma EntryOfAbs(d: Image, key: seq<byte>) returns (i: nat)
    requires Inv(d) && key in Abs(d)
    ensures Names(Table(d), i, key)
  {
    hide Table, FreeBits, Contents, Extent, MapExact;
    i :| 0 <= i < |Table(d)| && Table(d)[i].inUse && Key(Table(d)[i].name) == key;
  }

  lemma OneEntryPerKey(d: Image, i: nat, j: nat, key: seq<byte>)
    requires Inv(d) && Names(Table(d), i, key) && Names(Table(d), j, key)
    ensures i == j
  {
    hide Table, FreeBits, MapExact, EntryExtent;
    if i != j {
      SeparateEitherWay(d, Table(d), i, j);
    }
  }

  /** The directory lookup finds exactly the names in the abstract map, and their contents. */
  lemma LookupIsAbs(d: Image, key: seq<byte>)
    requires Inv(d)
    ensures key in Abs(d) <==> Lookup(Table(d), key, 0) != -1
    ensures key in Abs(d) ==>
              var h := Hdr(d, Table(d)[Lookup(Table(d), key, 0)].sector);
              Good(h) && Abs(d)[key] == Contents(d, h)
  {
    hide Table, FreeBits, Contents, Extent, MapExact, Abs, EntriesOk, Good;
    var r := Lookup(Table(d), key, 0);
    if key in Abs(d) {
      var i := EntryOfAbs(d, key);
      assert r != -1;
    }
    if r != -1 {
      AbsOfEntry(d, r);
    }
  }

  // Create.

  /** A successful Create adds one file of the requested length and changes no other. */
  lemma CreateOnAbs(d: Image, d': Image, name: CString, size: nat)
    requires Inv(d) && Created(d, d', name, size)
    ensures Inv(d') && Key(name) !in Abs(d) && Key(name) in Abs(d') && |Abs(d')[Key(name)]| == size
    ensures Abs(d') == Abs(d)[Key(name) := Abs(d')[Key(name)]]
  {
    hide Table, FreeBits, Contents, Extent, MapExact, Abs, EntriesOk, Good, Taken, FirstFit, SystemOk;
    CreateKeepsInv(d, d', name, size);
    LookupIsAbs(d, Key(name));
    CreatedNames(d, d', name, size);
    AbsOfEntry(d', Slot(d));
    forall k | k in Abs(d)
      ensures k in Abs(d') && Abs(d')[k] == Abs(d)[k]
    {
      var i := EntryOfAbs(d, k);
      AbsOfEntry(d, i);
      AbsOfEntry(d', i);
    }
    forall k | k in Abs(d') && k != Key(name)
      ensures k in Abs(d)
    {
      var i := EntryOfAbs(d', k);
      AbsOfEntry(d, i);
    }
  }

  lemma CreatedNames(d: Image, d': Image, name: CString, size: nat)
    requires Inv(d) && Created(d, d', name, size)
    ensures forall j :: 0 <= j < NUM_DIR_ENTRIES && j != Slot(d) ==> Table(d')[j] == Table(d)[j]
    ensures forall j :: 0 <= j < NUM_DIR_ENTRIES && j != Slot(d) && Table(d)[j].inUse ==>
                          && Hdr(d', Table(d)[j].sector) == Hdr(d, Table(d)[j].sector)
                          && Good(Hdr(d, Table(d)[j].sector))
                          && Contents(d', Hdr(d, Table(d)[j].sector)) == Contents(d, Hdr(d, Table(d)[j].sector))
    ensures Names(Table(d'), Slot(d), Key(name)) && Table(d')[Slot(d)].sector == NewSector(d)
    ensures !Table(d)[Slot(d)].inUse
  {
    hide Table, FreeBits, Contents, Extent, MapExact, Taken, FirstFit, SystemOk, Separate;
    KeyOfCopy(Table(d)[Slot(d)].name, name);
    NewSectorsWereClear(d, d', name, size);
    ExtentHasHeader(Hdr(d', NewSector(d)), NewSector(d));
    ClearMeetsNothing(d, {NewSector(d)});
    forall j | 0 <= j < NUM_DIR_ENTRIES && j != Slot(d) && Table(d)[j].inUse
      ensures && Hdr(d', Table(d)[j].sector) == Hdr(d, Table(d)[j].sector)
              && Good(Hdr(d, Table(d)[j].sector))
              && Contents(d', Hdr(d, Table(d)[j].sector)) == Contents(d, Hdr(d, Table(d)[j].sector))
    {
      assert EntryGood(d, Table(d)[j]);
      EntryKept(d, d', Table(d'), FreeBits(d'), {NewSector(d)}, Table(d)[j]);
    }
  }

  // Remove.

  lemma RemovedNames(d: Image, d': Image, name: CString)
    requires Inv(d) && Removed(d, d', name)
    ensures var i := Lookup(Table(d), Key(name), 0);
            && !Table(d')[i].inUse
            && forall j :: 0 <= j < NUM_DIR_ENTRIES && j != i ==>
                             && Table(d')[j] == Table(d)[j]
                             && (Table(d)[j].inUse ==>
                                   && Hdr(d', Table(d)[j].sector) == Hdr(d, Table(d)[j].sector)
                                   && Good(Hdr(d, Table(d)[j].sector))
                                   && Contents(d', Hdr(d, Table(d)[j].sector))
                                   == Contents(d, Hdr(d, Table(d)[j].sector)))
  {
    hide Table, FreeBits, Contents, Extent, MapExact, SystemOk, Separate;
    var i := Lookup(Table(d), Key(name), 0);
    forall j | 0 <= j < NUM_DIR_ENTRIES && j != i && Table(d)[j].inUse
      ensures && Hdr(d', Table(d)[j].sector) == Hdr(d, Table(d)[j].sector)
              && Good(Hdr(d, Table(d)[j].sector))
              && Contents(d', Hdr(d, Table(d)[j].sector)) == Contents(d, Hdr(d, Table(d)[j].sector))
    {
      assert EntryGood(d, Table(d)[j]);
      EntryKept(d, d', Table(d'), FreeBits(d'), {}, Table(d)[j]);
    }
  }

  /** Remove drops exactly the named file. */
  lemma RemoveOnAbs(d: Image, d': Image, name: CString)
    requires Inv(d) && Removed(d, d', name)
    ensures Inv(d') && Key(name) in Abs(d)
    ensures Abs(d') == Abs(d) - {Key(name)}
  {
    hide Table, FreeBits, Contents, Extent, MapExact, Abs, EntriesOk, Good, SystemOk;
    RemoveKeepsInv(d, d', name);
    LookupIsAbs(d, Key(name));
    RemovedNames(d, d', name);
    var r := Lookup(Table(d), Key(name), 0);
    forall k | k in Abs(d) && k != Key(name)
      ensures k in Abs(d') && Abs(d')[k] == Abs(d)[k]
    {
      var i := EntryOfAbs(d, k);
      AbsOfEntry(d, i);
      AbsOfEntry(d', i);
    }
    forall k | k in Abs(d')
      ensures k in Abs(d) && k != Key(name)
    {
      var i := EntryOfAbs(d', k);
      AbsOfEntry(d, i);
      if k == Key(name) {
        OneEntryPerKey(d, i, r, k);
      }
    }
  }

  // WriteAt.

  lemma OverwrittenContents(d: Image, d': Image, i: nat, pos: nat, data: seq<byte>, j: nat)
    requires Overwritten(d, d', i, pos, data) && j < NUM_DIR_ENTRIES && Table(d)[j].inUse
    ensures Hdr(d', Table(d)[j].sector) == Hdr(d, Table(d)[j].sector) && Good(Hdr(d, Table(d)[j].sector))
    ensures j != i ==> Contents(d', Hdr(d, Table(d)[j].sector)) == Contents(d, Hdr(d, Table(d)[j].sector))
  {
    hide FreeBits, Table, Extent, Data, Separate, MapExact, Contents;
    var t := Table(d);
    OverwrittenEntries(d, d', i, pos, data);
    OverwriteCommits(d, d', i, pos, data);
    assert EntryGood(d, t[j]);
    if j != i {
      SeparateExtents(d, t, i, j);
      EntryKept(d, d', t, FreeBits(d), EntryExtent(d, t[i]) - {t[i].sector}, t[j]);
    }
  }

  /** WriteAt splices the one file and leaves every other file's bytes alone. */
  lemma OverwriteOnAbs(d: Image, d': Image, i: nat, pos: nat, data: seq<byte>)
    requires Overwritten(d, d', i, pos, data)
    ensures Inv(d') && Key(Table(d)[i].name) in Abs(d)
    ensures var k := Key(Table(d)[i].name);
            && (data != [] ==> pos + |data| <= |Abs(d)[k]|)
            && Abs(d') == Abs(d)[k := Splice(Abs(d)[k], pos, data)]
  {
    hide Table, FreeBits, Contents, Extent, MapExact, Abs, EntriesOk, Good, SystemOk, Splice;
    OverwriteKeepsInv(d, d', i, pos, data);
    var t := Table(d);
    var key := Key(t[i].name);
    AbsOfEntry(d, i);
    AbsOfEntry(d', i);
    OverwrittenContents(d, d', i, pos, data, i);
    forall k | k in Abs(d) && k != key
      ensures k in Abs(d') && Abs(d')[k] == Abs(d)[k]
    {
      var j := EntryOfAbs(d, k);
      AbsOfEntry(d, j);
      AbsOfEntry(d', j);
      OverwrittenContents(d, d', i, pos, data, j);
    }
    forall k | k in Abs(d')
      ensures k in Abs(d)
    {
      var j := EntryOfAbs(d', k);
      AbsOfEntry(d, j);
    }
  }
}

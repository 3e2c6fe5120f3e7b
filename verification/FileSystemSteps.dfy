/** What Create, Remove and WriteAt do to a disk image, and that each keeps the layout invariant
    and acts on the map of names to contents. */
module FileSystemSteps {
  import opened Bytes
  import opened BitMaps
  import opened Sectors
  import opened FileHeaders
  import opened OpenFiles
  import opened Directories
  import opened DiskLayout

  // The three steps, as relations between images.

  /** Whether Create has a free name, a header sector, a directory slot and enough data sectors. */
  ghost predicate CanCreate(d: Image, name: CString, size: nat)
    requires SystemOk(d)
  {
    && Lookup(Table(d), Key(name), 0) == -1
    && FreeSlot(Table(d), 0) != -1
    && 1 + DivRoundUp(size) <= |Clear(FreeBits(d))|
  }

  /** The slot and header sector Create chooses. */
  ghost function Slot(d: Image): int
    requires SystemOk(d)
  {
    FreeSlot(Table(d), 0)
  }

  ghost function NewSector(d: Image): int
    requires SystemOk(d)
  {
    FirstClear(FreeBits(d), 0)
  }

  /** A header h for `size` bytes goes to sector s, its data to clear sectors, the name to slot i. */
  ghost predicate CreatedAt(d: Image, d': Image, name: CString, size: nat, i: nat, s: nat, h: Header)
    requires SystemOk(d) && SystemOk(d') && i < NUM_DIR_ENTRIES && s < NUM_SECTORS
  {
    && Committed(d, d', Table(d)[i := Filled(Table(d)[i], name, s)], FreeBits(d'), {s})
    && Good(h) && h.numBytes == size
    && Taken(FreeBits(d)[s := true], Data(h), FreeBits(d'))
    && FirstFit(Data(h), FreeBits(d'))
  }

  /** Create took the first clear sector for the header and the first free slot for a new name. */
  ghost predicate Created(d: Image, d': Image, name: CString, size: nat) {
    && SystemOk(d) && SystemOk(d')
    && Lookup(Table(d), Key(name), 0) == -1
    && Slot(d) != -1 && NewSector(d) != -1
    && CreatedAt(d, d', name, size, Slot(d), NewSector(d), Hdr(d', NewSector(d)))
  }

  /** The entry is dropped and exactly its sectors are cleared. */
  ghost predicate Removed(d: Image, d': Image, name: CString) {
    && SystemOk(d) && SystemOk(d')
    && var t := Table(d);
       var i := Lookup(t, Key(name), 0);
       && i != -1
       && Committed(d, d', t[i := t[i].(inUse := false)], FreeBits(d'), {})
       && (forall s :: 0 <= s < NUM_SECTORS ==> (FreeBits(d')[s] <==> FreeBits(d)[s] && s !in EntryExtent(d, t[i])))
  }

  /** Entry i's file is overwritten from pos on. */
  ghost predicate Overwritten(d: Image, d': Image, i: nat, pos: nat, data: seq<byte>) {
    && Inv(d)
    && i < NUM_DIR_ENTRIES && Table(d)[i].inUse
    && var h := Hdr(d, Table(d)[i].sector);
       && Good(h) && (data != [] ==> pos + |data| <= h.numBytes)
       && Written(d, d', h, pos, data)
  }

  // Frame lemmas over entries.

  lemma SystemKept(d: Image, d': Image, t: seq<DirectoryEntry>, bits: seq<bool>, touched: set<int>)
    requires Committed(d, d', t, bits, touched)
    ensures SystemExtent(d') == SystemExtent(d)
  {
  }

  /** A commit that touches none of a file's sectors keeps the file. */
  lemma EntryKept(d: Image, d': Image, t: seq<DirectoryEntry>, bits: seq<bool>, touched: set<int>, e: DirectoryEntry)
    requires Committed(d, d', t, bits, touched) && EntryGood(d, e) && EntryExtent(d, e) !! touched
    ensures EntryExtent(d', e) == EntryExtent(d, e)
    ensures EntryGood(d', e)
    ensures e.inUse ==> Hdr(d', e.sector) == Hdr(d, e.sector)
    ensures e.inUse ==> Contents(d', Hdr(d, e.sector)) == Contents(d, Hdr(d, e.sector))
  {
    hide Table, FreeBits;
    if e.inUse {
      var h := Hdr(d, e.sector);
      var all := touched + MapData(d) + DirData(d);
      assert e.sector in EntryExtent(d, e);
      assert EntryExtent(d, e) !! all;
      SameHeader(d, d', all, e.sector);
      SameContents(d, d', all, h, e.sector);
      SystemKept(d, d', t, bits, touched);
    }
  }

  lemma SeparateKept(d: Image, d': Image, e: DirectoryEntry, f: DirectoryEntry)
    requires Separate(d, e, f) && EntryExtent(d', e) == EntryExtent(d, e) && EntryExtent(d', f) == EntryExtent(d, f)
    ensures Separate(d', e, f)
  {
  }

  lemma NotInUse(d: Image, t: seq<DirectoryEntry>, s: int)
    requires !InUse(d, t, s)
    ensures s !in SystemExtent(d)
    ensures forall i :: 0 <= i < |t| ==> s !in EntryExtent(d, t[i])
  {
  }

  /** Every entry but i survives a commit that touches only sectors not in use. */
  lemma OthersKept(d: Image, d': Image, t: seq<DirectoryEntry>, bits: seq<bool>, touched: set<int>, i: nat)
    requires Inv(d) && Committed(d, d', t, bits, touched)
    requires |t| == NUM_DIR_ENTRIES && i < NUM_DIR_ENTRIES
    requires (forall j :: 0 <= j < NUM_DIR_ENTRIES && j != i ==> t[j] == Table(d)[j])
    requires forall j :: 0 <= j < NUM_DIR_ENTRIES && j != i ==> EntryExtent(d, t[j]) !! touched
    ensures forall j :: 0 <= j < NUM_DIR_ENTRIES && j != i ==>
                          EntryGood(d', t[j]) && EntryExtent(d', t[j]) == EntryExtent(d, t[j])
    ensures forall j, k :: 0 <= j < k < NUM_DIR_ENTRIES && j != i && k != i ==> Separate(d', t[j], t[k])
  {
    hide Committed, EntryGood, EntryExtent, Separate, Table;
    forall j | 0 <= j < NUM_DIR_ENTRIES && j != i
      ensures EntryGood(d', t[j]) && EntryExtent(d', t[j]) == EntryExtent(d, t[j])
    {
      assert EntryGood(d, Table(d)[j]);
      EntryKept(d, d', t, bits, touched, t[j]);
    }
    forall j, k | 0 <= j < k < NUM_DIR_ENTRIES && j != i && k != i
      ensures Separate(d', t[j], t[k])
    {
      assert Separate(d, Table(d)[j], Table(d)[k]);
      SeparateKept(d, d', t[j], t[k]);
    }
  }

  /** How one entry's replacement shows in the invariant. */
  lemma EntriesOkByOne(d: Image, t: seq<DirectoryEntry>, i: nat)
    requires i < |t| && EntryGood(d, t[i])
    requires forall j :: 0 <= j < |t| && j != i ==> EntryGood(d, t[j]) && Separate(d, t[j], t[i])
    requires forall j, k :: 0 <= j < k < |t| && j != i && k != i ==> Separate(d, t[j], t[k])
    ensures EntriesOk(d, t)
  {
    hide EntryGood, EntryExtent;
    forall j, k | 0 <= j < k < |t|
      ensures Separate(d, t[j], t[k])
    {
      if j == i {
        assert Separate(d, t[k], t[i]);
      }
    }
  }

  // Create.

  /** Every sector Create takes was clear before. */
  lemma NewSectorsWereClear(d: Image, d': Image, name: CString, size: nat)
    requires Created(d, d', name, size)
    ensures forall x :: x in Extent(Hdr(d', NewSector(d)), NewSector(d)) ==> 0 <= x < NUM_SECTORS && !FreeBits(d)[x]
    ensures NewSector(d) !in Data(Hdr(d', NewSector(d)))
  {
    hide Committed, FirstFit, FreeBits, Table, Hdr;
    var s := NewSector(d);
    var h := Hdr(d', s);
    forall x | x in Extent(h, s)
      ensures 0 <= x < NUM_SECTORS && !FreeBits(d)[x]
    {
      if x != s {
        var i :| 0 <= i < h.numSectors && h.dataSectors[i] == x;
        assert Data(h)[i] == x;
      }
    }
  }

  /** A set of clear sectors meets no extent. */
  lemma ClearMeetsNothing(d: Image, xs: set<int>)
    requires Inv(d) && (forall x :: x in xs ==> 0 <= x < NUM_SECTORS && !FreeBits(d)[x])
    ensures xs !! SystemExtent(d)
    ensures forall j :: 0 <= j < NUM_DIR_ENTRIES ==> EntryExtent(d, Table(d)[j]) !! xs
  {
    hide EntryExtent, SystemExtent, EntriesOk, FreeBits, Table, SystemOk;
    forall x | x in xs
      ensures !InUse(d, Table(d), x)
    {
    }
    forall x | x in xs
      ensures x !in SystemExtent(d)
    {
      NotInUse(d, Table(d), x);
    }
    forall j | 0 <= j < NUM_DIR_ENTRIES
      ensures EntryExtent(d, Table(d)[j]) !! xs
    {
      forall x | x in xs
        ensures x !in EntryExtent(d, Table(d)[j])
      {
        NotInUse(d, Table(d), x);
      }
    }
  }

  lemma CreatedEntries(d: Image, d': Image, name: CString, size: nat)
    requires Inv(d) && Created(d, d', name, size)
    ensures EntriesOk(d', Table(d'))
    ensures forall j :: 0 <= j < NUM_DIR_ENTRIES && j != Slot(d) ==>
                          Table(d')[j] == Table(d)[j] && EntryExtent(d', Table(d')[j]) == EntryExtent(d, Table(d)[j])
    ensures EntryExtent(d', Table(d')[Slot(d)]) == Extent(Hdr(d', NewSector(d)), NewSector(d))
  {
    hide FreeBits, Table, Hdr, SystemOk, MapExact, Taken, FirstFit, EntriesOk, Extent, Good, Data;
    var t := Table(d);
    var t' := Table(d');
    var i := Slot(d);
    var s := NewSector(d);
    var xs := Extent(Hdr(d', s), s);
    NewSectorsWereClear(d, d', name, size);
    ClearMeetsNothing(d, xs);
    ExtentHasHeader(Hdr(d', s), s);
    OthersKept(d, d', t', FreeBits(d'), {s}, i);
    SystemKept(d, d', t', FreeBits(d'), {s});
    KeyOfCopy(t[i].name, name);
    forall j | 0 <= j < NUM_DIR_ENTRIES && j != i
      ensures Separate(d', t'[j], t'[i])
    {
      assert !Names(t, j, Key(name));
    }
    EntriesOkByOne(d', t', i);
  }

  lemma ExtentHasHeader(h: Header, s: int)
    ensures s in Extent(h, s)
  {
  }

  /** Changing what one entry owns changes what is in use by exactly that. */
  lemma InUseByOne(d: Image, d': Image, t: seq<DirectoryEntry>, t': seq<DirectoryEntry>, i: nat, x: int)
    requires |t| == |t'| && i < |t| && SystemExtent(d') == SystemExtent(d)
    requires forall j :: 0 <= j < |t| && j != i ==> EntryExtent(d', t'[j]) == EntryExtent(d, t[j])
    requires EntryExtent(d, t[i]) == {}
    ensures InUse(d', t', x) <==> InUse(d, t, x) || x in EntryExtent(d', t'[i])
  {
    hide EntryExtent, SystemExtent;
    if InUse(d, t, x) && x !in SystemExtent(d) {
      var j :| 0 <= j < |t| && x in EntryExtent(d, t[j]);
      assert x in EntryExtent(d', t'[j]);
    }
    if InUse(d', t', x) && x !in SystemExtent(d) {
      var j :| 0 <= j < |t| && x in EntryExtent(d', t'[j]);
      assert j != i ==> x in EntryExtent(d, t[j]);
    }
  }

  lemma TakenBits(before: seq<bool>, s: int, h: Header, after: seq<bool>, x: int)
    requires 0 <= s < |before| && Good(h) && Taken(before[s := true], Data(h), after) && 0 <= x < |before|
    ensures after[x] <==> before[x] || x in Extent(h, s)
  {
    if x in Data(h) {
      var i :| 0 <= i < |Data(h)| && Data(h)[i] == x;
      assert h.dataSectors[i] in Extent(h, s);
    }
    if x in Extent(h, s) && x != s {
      var i :| 0 <= i < h.numSectors && h.dataSectors[i] == x;
      assert Data(h)[i] == x;
    }
  }

  lemma CreatedMap(d: Image, d': Image, name: CString, size: nat)
    requires Inv(d) && Created(d, d', name, size)
    ensures MapExact(d', Table(d'), FreeBits(d'))
  {
    hide FreeBits, Table, Hdr, SystemOk, Taken, FirstFit, EntriesOk, Extent, Good, Data, InUse, SystemExtent;
    var i := Slot(d);
    var s := NewSector(d);
    CreatedEntries(d, d', name, size);
    SystemKept(d, d', Table(d'), FreeBits(d'), {s});
    forall x | 0 <= x < NUM_SECTORS
      ensures FreeBits(d')[x] <==> InUse(d', Table(d'), x)
    {
      InUseByOne(d, d', Table(d), Table(d'), i, x);
      TakenBits(FreeBits(d), s, Hdr(d', s), FreeBits(d'), x);
    }
  }

  /** Create keeps the layout invariant. */
  lemma CreateKeepsInv(d: Image, d': Image, name: CString, size: nat)
    requires Inv(d) && Created(d, d', name, size)
    ensures Inv(d')
  {
    CreatedEntries(d, d', name, size);
    CreatedMap(d, d', name, size);
  }

  // Remove.

  lemma RemovedEntries(d: Image, d': Image, name: CString)
    requires Inv(d) && Removed(d, d', name)
    ensures EntriesOk(d', Table(d'))
    ensures var i := Lookup(Table(d), Key(name), 0);
            && EntryExtent(d', Table(d')[i]) == {}
            && forall j :: 0 <= j < NUM_DIR_ENTRIES && j != i ==>
                             Table(d')[j] == Table(d)[j] && EntryExtent(d', Table(d')[j]) == EntryExtent(d, Table(d)[j])
  {
    hide FreeBits, Table, Hdr, SystemOk, MapExact, EntriesOk, Extent, Good, Data;
    var t' := Table(d');
    var i := Lookup(Table(d), Key(name), 0);
    OthersKept(d, d', t', FreeBits(d'), {}, i);
    EntriesOkByOne(d', t', i);
  }

  lemma RemovedMap(d: Image, d': Image, name: CString)
    requires Inv(d) && Removed(d, d', name)
    ensures MapExact(d', Table(d'), FreeBits(d'))
  {
    hide FreeBits, Table, Hdr, SystemOk, EntryExtent, Extent, Good, Data, InUse, SystemExtent, EntryGood;
    var t := Table(d);
    var i := Lookup(t, Key(name), 0);
    RemovedEntries(d, d', name);
    SystemKept(d, d', Table(d'), FreeBits(d'), {});
    forall x | 0 <= x < NUM_SECTORS
      ensures FreeBits(d')[x] <==> InUse(d', Table(d'), x)
    {
      InUseByOne(d', d, Table(d'), t, i, x);
      if x in EntryExtent(d, t[i]) {
        OwnersUnique(d, d', t, Table(d'), i, x);
      }
    }
  }

  /** A sector of entry i is not in use once i owns nothing. */
  lemma OwnersUnique(d: Image, d': Image, t: seq<DirectoryEntry>, t': seq<DirectoryEntry>, i: nat, x: int)
    requires EntriesOk(d, t) && |t'| == |t| && i < |t| && x in EntryExtent(d, t[i])
    requires SystemExtent(d') == SystemExtent(d) && EntryExtent(d', t'[i]) == {}
    requires forall j :: 0 <= j < |t| && j != i ==> EntryExtent(d', t'[j]) == EntryExtent(d, t[j])
    ensures !InUse(d', t', x)
  {
    hide SystemExtent, Extent, Good, Hdr, Data;
    assert EntryGood(d, t[i]);
    forall j | 0 <= j < |t|
      ensures x !in EntryExtent(d', t'[j])
    {
      if j != i {
        assert if j < i then Separate(d, t[j], t[i]) else Separate(d, t[i], t[j]);
      }
    }
  }

  /** Remove keeps the layout invariant. */
  lemma RemoveKeepsInv(d: Image, d': Image, name: CString)
    requires Inv(d) && Removed(d, d', name)
    ensures Inv(d')
  {
    RemovedEntries(d, d', name);
    RemovedMap(d, d', name);
  }

  // WriteAt.

  /** Overwriting a file touches only its data sectors, so the directory, the map and every header stay. */
  lemma OverwriteCommits(d: Image, d': Image, i: nat, pos: nat, data: seq<byte>)
    requires Overwritten(d, d', i, pos, data)
    ensures Committed(d, d', Table(d), FreeBits(d), EntryExtent(d, Table(d)[i]) - {Table(d)[i].sector})
    ensures Agree(d, d', EntryExtent(d, Table(d)[i]) - {Table(d)[i].sector})
  {
    hide MapExact, StoredBits, DecodeTable;
    var e := Table(d)[i];
    var h := Hdr(d, e.sector);
    assert EntryGood(d, e);
    var touched := Extent(h, e.sector) - {e.sector};
    ExtentData(h, e.sector);
    assert Agree(d, d', touched);
    SameHeader(d, d', touched, FREE_MAP_SECTOR);
    SameHeader(d, d', touched, DIRECTORY_SECTOR);
    SameContents(d, d', touched, MapHdr(d), FREE_MAP_SECTOR);
    SameContents(d, d', touched, DirHdr(d), DIRECTORY_SECTOR);
  }

  lemma OverwrittenEntries(d: Image, d': Image, i: nat, pos: nat, data: seq<byte>)
    requires Overwritten(d, d', i, pos, data)
    ensures SystemOk(d') && Table(d') == Table(d) && FreeBits(d') == FreeBits(d) && SystemExtent(d') == SystemExtent(d)
    ensures forall j :: 0 <= j < NUM_DIR_ENTRIES ==> EntryExtent(d', Table(d)[j]) == EntryExtent(d, Table(d)[j])
    ensures Hdr(d', Table(d)[i].sector) == Hdr(d, Table(d)[i].sector)
    ensures EntriesOk(d', Table(d'))
  {
    hide MapExact, FreeBits, Table, Extent, Good, Data, Written, Separate;
    var t := Table(d);
    var touched := EntryExtent(d, t[i]) - {t[i].sector};
    OverwriteCommits(d, d', i, pos, data);
    SystemKept(d, d', t, FreeBits(d), touched);
    SameHeader(d, d', touched, t[i].sector);
    forall j | 0 <= j < NUM_DIR_ENTRIES && j != i
      ensures EntryExtent(d, t[j]) !! touched
    {
      SeparateExtents(d, t, i, j);
    }
    OthersKept(d, d', t, FreeBits(d), touched, i);
    assert EntryGood(d, t[i]);
    forall j | 0 <= j < NUM_DIR_ENTRIES && j != i
      ensures Separate(d', t[j], t[i])
    {
      SeparateEitherWay(d, t, i, j);
      SeparateKept(d, d', t[j], t[i]);
    }
    EntriesOkByOne(d', t, i);
  }

  lemma SeparateEitherWay(d: Image, t: seq<DirectoryEntry>, i: nat, j: nat)
    requires EntriesOk(d, t) && i < |t| && j < |t| && i != j
    ensures Separate(d, t[j], t[i])
  {
    hide EntryExtent;
    assert if i < j then Separate(d, t[i], t[j]) else Separate(d, t[j], t[i]);
  }

  lemma SeparateExtents(d: Image, t: seq<DirectoryEntry>, i: nat, j: nat)
    requires EntriesOk(d, t) && i < |t| && j < |t| && i != j
    ensures EntryExtent(d, t[j]) !! EntryExtent(d, t[i])
  {
    hide EntryExtent;
    SeparateEitherWay(d, t, i, j);
  }

  /** WriteAt keeps the layout invariant, the directory and the map. */
  lemma OverwriteKeepsInv(d: Image, d': Image, i: nat, pos: nat, data: seq<byte>)
    requires Overwritten(d, d', i, pos, data)
    ensures Inv(d') && Table(d') == Table(d) && FreeBits(d') == FreeBits(d)
  {
    hide FreeBits, Table, Extent, Good, Data, Written, Separate, EntriesOk, EntryExtent, SystemExtent;
    OverwrittenEntries(d, d', i, pos, data);
    var t := Table(d);
    forall x | 0 <= x < NUM_SECTORS
      ensures InUse(d', t, x) <==> InUse(d, t, x)
    {
      SameExtentsSameUse(d, d', t, x);
    }
  }

  lemma SameExtentsSameUse(d: Image, d': Image, t: seq<DirectoryEntry>, x: int)
    requires SystemExtent(d') == SystemExtent(d)
    requires forall j :: 0 <= j < |t| ==> EntryExtent(d', t[j]) == EntryExtent(d, t[j])
    ensures InUse(d', t, x) <==> InUse(d, t, x)
  {
    hide EntryExtent, SystemExtent;
    if InUse(d, t, x) && x !in SystemExtent(d) {
      var j :| 0 <= j < |t| && x in EntryExtent(d, t[j]);
      assert x in EntryExtent(d', t[j]);
    }
    if InUse(d', t, x) && x !in SystemExtent(d) {
      var j :| 0 <= j < |t| && x in EntryExtent(d', t[j]);
      assert x in EntryExtent(d, t[j]);
    }
  }
}

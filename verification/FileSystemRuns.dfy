/** Sector accounting, and the run-level theorems of the file system. */
module FileSystemRuns {
  import opened Bytes
  import opened BitMaps
  import opened Sectors
  import opened FileHeaders
  import opened OpenFiles
  import opened Directories
  import opened DiskLayout
  import opened FileSystemSteps
  import opened FileSystemRefinement

  // Counting sectors.

  lemma {:induction false} DistinctPrefix(h: Header, n: nat)
    requires Good(h) && n <= h.numSectors
    ensures |set i | 0 <= i < n :: h.dataSectors[i]| == n
  {
    if n > 0 {
      DistinctPrefix(h, n - 1);
      var shorter := set i | 0 <= i < n - 1 :: h.dataSectors[i];
      assert (set i | 0 <= i < n :: h.dataSectors[i]) == shorter + {h.dataSectors[n - 1]};
      assert h.dataSectors[n - 1] !in shorter;
    }
  }

  lemma ExtentSize(h: Header, s: int)
    requires Good(h) && s !in Data(h)
    ensures |Extent(h, s)| == 1 + h.numSectors
  {
    var data := set i | 0 <= i < h.numSectors :: h.dataSectors[i];
    DistinctPrefix(h, h.numSectors);
    assert Extent(h, s) == {s} + data;
    assert s !in data;
  }

  ghost function Free(d: Image): nat
    requires SystemOk(d)
  {
    |Clear(FreeBits(d))|
  }

  /** Create lowers the free count by exactly the header and the data sectors. */
  lemma CreateTakes(d: Image, d': Image, name: CString, size: nat)
    requires Inv(d) && Created(d, d', name, size)
    ensures Free(d') == Free(d) - (1 + DivRoundUp(size))
  {
    hide Table, FreeBits, MapExact, EntriesOk, Committed, FirstFit, Extent, SystemOk, Hdr;
    var s := NewSector(d);
    var h := Hdr(d', s);
    NewSectorsWereClear(d, d', name, size);
    ExtentSize(h, s);
    forall x | 0 <= x < NUM_SECTORS
      ensures FreeBits(d')[x] <==> FreeBits(d)[x] || x in Extent(h, s)
    {
      TakenBits(FreeBits(d), s, h, FreeBits(d'), x);
    }
    TakeFromClear(FreeBits(d), FreeBits(d'), Extent(h, s));
  }

  lemma TakeFromClear(before: seq<bool>, after: seq<bool>, xs: set<int>)
    requires |after| == |before|
    requires forall x :: x in xs ==> 0 <= x < |before| && !before[x]
    requires forall x :: 0 <= x < |before| ==> (after[x] <==> before[x] || x in xs)
    ensures |Clear(after)| == |Clear(before)| - |xs|
  {
    assert Clear(before) == Clear(after) + xs;
    assert Clear(after) !! xs;
  }

  /** Remove gives back exactly the removed file's sectors. */
  lemma RemoveGives(d: Image, d': Image, name: CString)
    requires Inv(d) && Removed(d, d', name)
    ensures Key(name) in Abs(d)
    ensures Free(d') == Free(d) + 1 + DivRoundUp(|Abs(d)[Key(name)]|)
  {
    hide Table, FreeBits, Committed, Extent, SystemOk, Contents, Abs;
    var t := Table(d);
    var i := Lookup(t, Key(name), 0);
    LookupIsAbs(d, Key(name));
    assert EntryGood(d, t[i]);
    var xs := EntryExtent(d, t[i]);
    ExtentSize(Hdr(d, t[i].sector), t[i].sector);
    ExtentInRange(d, t[i]);
    forall x | x in xs
      ensures FreeBits(d)[x]
    {
      assert InUse(d, t, x);
    }
    TakeFromClear(FreeBits(d'), FreeBits(d), xs);
  }

  lemma ExtentInRange(d: Image, e: DirectoryEntry)
    requires EntryGood(d, e)
    ensures forall x :: x in EntryExtent(d, e) ==> 0 <= x < NUM_SECTORS
  {
  }

  /** The sectors owned by the system files and by the first n entries. */
  ghost function Owned(d: Image, n: nat): set<int>
    requires SystemOk(d) && n <= NUM_DIR_ENTRIES
  {
    if n == 0 then SystemExtent(d) else Owned(d, n - 1) + EntryExtent(d, Table(d)[n - 1])
  }

  /** The sectors those files need: five for the system, and header and data for each file. */
  ghost function Needed(d: Image, n: nat): nat
    requires Inv(d) && n <= NUM_DIR_ENTRIES
  {
    if n == 0 then 5
    else Needed(d, n - 1) + if Table(d)[n - 1].inUse then 1 + DivRoundUp(|Abs(d)[NameKey(d, n - 1)]|) else 0
  }

  ghost function NameKey(d: Image, i: nat): (k: seq<byte>)
    requires Inv(d) && i < NUM_DIR_ENTRIES && Table(d)[i].inUse
    ensures k in Abs(d)
  {
    AbsOfEntry(d, i);
    Key(Table(d)[i].name)
  }

  lemma {:induction false} OwnedIsUnion(d: Image, n: nat, x: int)
    requires SystemOk(d) && n <= NUM_DIR_ENTRIES
    ensures x in Owned(d, n) <==> x in SystemExtent(d) || exists i :: 0 <= i < n && x in EntryExtent(d, Table(d)[i])
  {
    hide Table, SystemExtent, EntryExtent;
    if n > 0 {
      OwnedIsUnion(d, n - 1, x);
      if x in SystemExtent(d) || exists i :: 0 <= i < n && x in EntryExtent(d, Table(d)[i]) {
        if x !in SystemExtent(d) {
          var i :| 0 <= i < n && x in EntryExtent(d, Table(d)[i]);
        }
      }
    }
  }

  lemma SystemSize(d: Image)
    requires SystemOk(d)
    ensures |SystemExtent(d)| == 5
  {
    ExtentSize(MapHdr(d), FREE_MAP_SECTOR);
    ExtentSize(DirHdr(d), DIRECTORY_SECTOR);
  }

  lemma {:induction false} OwnedSize(d: Image, n: nat)
    requires Inv(d) && n <= NUM_DIR_ENTRIES
    ensures |Owned(d, n)| == Needed(d, n)
  {
    hide Table, SystemExtent, EntryExtent, FreeBits, MapExact, Contents, Abs, Hdr;
    if n == 0 {
      SystemSize(d);
    } else {
      OwnedSize(d, n - 1);
      OwnedDisjoint(d, n - 1);
      EntrySize(d, n - 1);
    }
  }

  lemma EntrySize(d: Image, i: nat)
    requires Inv(d) && i < NUM_DIR_ENTRIES
    ensures |EntryExtent(d, Table(d)[i])| == if Table(d)[i].inUse then 1 + DivRoundUp(|Abs(d)[NameKey(d, i)]|) else 0
  {
    hide Table, FreeBits, MapExact, Contents, Abs, Hdr, Extent;
    var e := Table(d)[i];
    assert EntryGood(d, e);
    if e.inUse {
      AbsOfEntry(d, i);
      ExtentSize(Hdr(d, e.sector), e.sector);
    }
  }

  lemma OwnedDisjoint(d: Image, n: nat)
    requires Inv(d) && n < NUM_DIR_ENTRIES
    ensures Owned(d, n) !! EntryExtent(d, Table(d)[n])
  {
    hide Table, SystemExtent, FreeBits, MapExact, Hdr, Extent, Owned;
    var e := Table(d)[n];
    assert EntryGood(d, e);
    forall x | x in EntryExtent(d, e)
      ensures x !in Owned(d, n)
    {
      OwnedIsUnion(d, n, x);
      forall i | 0 <= i < n
        ensures x !in EntryExtent(d, Table(d)[i])
      {
        SeparateExtents(d, Table(d), n, i);
      }
    }
  }

  /** Conservation: free sectors and the sectors of all files always add up to the whole disk. */
  lemma FreePlusOwned(d: Image)
    requires Inv(d)
    ensures Free(d) + Needed(d, NUM_DIR_ENTRIES) == 1024
  {
    hide Table, SystemExtent, EntryExtent, FreeBits, Needed, Owned, SystemOk, EntriesOk;
    var bits := FreeBits(d);
    var owned := Owned(d, NUM_DIR_ENTRIES);
    OwnedSize(d, NUM_DIR_ENTRIES);
    forall x
      ensures x in owned <==> x in Marked(bits)
    {
      OwnedIsUnion(d, NUM_DIR_ENTRIES, x);
      if x in owned {
        OwnedInRange(d, x);
      }
      assert 0 <= x < NUM_SECTORS ==> (bits[x] <==> InUse(d, Table(d), x));
    }
    assert owned == Marked(bits);
    ClearPlusMarked(bits);
  }

  lemma OwnedInRange(d: Image, x: int)
    requires Inv(d) && x in Owned(d, NUM_DIR_ENTRIES)
    ensures 0 <= x < NUM_SECTORS
  {
    hide Table, FreeBits, Owned;
    OwnedIsUnion(d, NUM_DIR_ENTRIES, x);
    if x !in SystemExtent(d) {
      var i :| 0 <= i < NUM_DIR_ENTRIES && x in EntryExtent(d, Table(d)[i]);
      assert EntryGood(d, Table(d)[i]);
    }
  }

  // Counting names.

  ghost function KeysUpTo(t: seq<DirectoryEntry>, n: nat): set<seq<byte>>
    requires n <= |t|
  {
    if n == 0 then {} else if t[n - 1].inUse then KeysUpTo(t, n - 1) + {Key(t[n - 1].name)} else KeysUpTo(t, n - 1)
  }

  lemma {:induction false} KeyListed(t: seq<DirectoryEntry>, n: nat, k: seq<byte>) returns (i: nat)
    requires n <= |t| && k in KeysUpTo(t, n)
    ensures i < n && Names(t, i, k)
  {
    hide Key;
    if t[n - 1].inUse && Key(t[n - 1].name) == k {
      i := n - 1;
    } else {
      i := KeyListed(t, n - 1, k);
    }
  }

  lemma {:induction false} ListedKey(t: seq<DirectoryEntry>, n: nat, i: nat, k: seq<byte>)
    requires i < n <= |t| && Names(t, i, k)
    ensures k in KeysUpTo(t, n)
  {
    hide Key;
    if i < n - 1 {
      ListedKey(t, n - 1, i, k);
    }
  }

  lemma KeysUpToMembers(t: seq<DirectoryEntry>, n: nat, k: seq<byte>)
    requires n <= |t|
    ensures k in KeysUpTo(t, n) <==> exists i :: 0 <= i < n && Names(t, i, k)
  {
    hide KeysUpTo, Names;
    if k in KeysUpTo(t, n) {
      var i := KeyListed(t, n, k);
    }
    if i :| 0 <= i < n && Names(t, i, k) {
      ListedKey(t, n, i, k);
    }
  }

  ghost function Listed(t: seq<DirectoryEntry>, n: nat): nat
    requires n <= |t|
  {
    if n == 0 then 0 else Listed(t, n - 1) + if t[n - 1].inUse then 1 else 0
  }

  lemma {:induction false} KeysCounted(d: Image, n: nat)
    requires Inv(d) && n <= NUM_DIR_ENTRIES
    ensures |KeysUpTo(Table(d), n)| == Listed(Table(d), n)
  {
    hide Table, FreeBits, MapExact, EntriesOk, SystemOk;
    if n > 0 {
      KeysCounted(d, n - 1);
      var t := Table(d);
      var k := Key(t[n - 1].name);
      if t[n - 1].inUse {
        KeysUpToMembers(t, n - 1, k);
        forall i | 0 <= i < n - 1
          ensures !Names(t, i, k)
        {
          if Names(t, i, k) {
            OneEntryPerKey(d, i, n - 1, k);
          }
        }
      }
    }
  }

  lemma {:induction false} ListedFull(t: seq<DirectoryEntry>, n: nat)
    requires n <= |t|
    ensures Listed(t, n) <= n
    ensures Listed(t, n) == n <==> forall i :: 0 <= i < n ==> t[i].inUse
  {
    if n > 0 {
      ListedFull(t, n - 1);
    }
  }

  /** A directory slot is free exactly when fewer than ten names are listed. */
  lemma SlotIffRoom(d: Image)
    requires Inv(d)
    ensures Slot(d) != -1 <==> |Abs(d)| < 10
  {
    hide Table, FreeBits, MapExact, EntriesOk, SystemOk, Abs, KeysUpTo, Listed;
    var t := Table(d);
    KeysCounted(d, NUM_DIR_ENTRIES);
    ListedFull(t, NUM_DIR_ENTRIES);
    forall k
      ensures k in KeysUpTo(t, NUM_DIR_ENTRIES) <==> k in Abs(d).Keys
    {
      KeysUpToMembers(t, NUM_DIR_ENTRIES, k);
      if k in Abs(d) {
        var i := EntryOfAbs(d, k);
      }
      if i :| 0 <= i < NUM_DIR_ENTRIES && Names(t, i, k) {
        AbsOfEntry(d, i);
      }
    }
    assert KeysUpTo(t, NUM_DIR_ENTRIES) == Abs(d).Keys;
  }

  // Runs.

  datatype Op =
    | Create(name: CString, size: nat)
    | Remove(name: CString)
    | Write(name: CString, pos: nat, data: seq<byte>)

  /** What the code does to the disk for one operation, including every failure. */
  ghost predicate Step(d: Image, op: Op, d': Image)
    requires Inv(d)
  {
    match op
    case Create(name, size) =>
      size <= MAX_FILE_SIZE && if CanCreate(d, name, size) then Created(d, d', name, size) else d' == d
    case Remove(name) =>
      if Lookup(Table(d), Key(name), 0) != -1 then Removed(d, d', name) else d' == d
    case Write(name, pos, data) =>
      var i := Lookup(Table(d), Key(name), 0);
      if i == -1 then d' == d
      else
        var length := Hdr(d, Table(d)[i].sector).numBytes;
        0 <= length && Overwritten(d, d', i, pos, data[..Clamp(length, |data|, pos)])
  }

  /** The abstract store: contents by name key, and the number of free sectors. */
  datatype Store = Store(files: map<seq<byte>, seq<byte>>, free: int)

  ghost function StoreOf(d: Image): Store
    requires Inv(d)
  {
    Store(Abs(d), Free(d))
  }

  ghost predicate StoreStep(m: Store, op: Op, m': Store) {
    match op
    case Create(name, size) =>
      var k := Key(name);
      if k !in m.files && |m.files| < 10 && 1 + DivRoundUp(size) <= m.free then
        && k in m'.files && |m'.files[k]| == size
        && m' == Store(m.files[k := m'.files[k]], m.free - (1 + DivRoundUp(size)))
      else m' == m
    case Remove(name) =>
      var k := Key(name);
      if k in m.files then m' == Store(m.files - {k}, m.free + 1 + DivRoundUp(|m.files[k]|)) else m' == m
    case Write(name, pos, data) =>
      var k := Key(name);
      if k in m.files then
        m' == m.(files := m.files[k := Splice(m.files[k], pos, data[..Clamp(|m.files[k]|, |data|, pos)])])
      else m' == m
  }

  lemma CanCreateOnStore(d: Image, name: CString, size: nat)
    requires Inv(d)
    ensures CanCreate(d, name, size) <==>
            Key(name) !in Abs(d) && |Abs(d)| < 10 && 1 + DivRoundUp(size) <= Free(d)
  {
    hide Table, FreeBits, MapExact, EntriesOk, SystemOk, Abs;
    LookupIsAbs(d, Key(name));
    SlotIffRoom(d);
  }

  lemma CreateRefines(d: Image, name: CString, size: nat, d': Image)
    requires Inv(d) && Step(d, Create(name, size), d')
    ensures Inv(d') && StoreStep(StoreOf(d), Create(name, size), StoreOf(d'))
  {
    hide Table, FreeBits, MapExact, EntriesOk, SystemOk, Abs, CanCreate, Created;
    CanCreateOnStore(d, name, size);
    if CanCreate(d, name, size) {
      CreateOnAbs(d, d', name, size);
      CreateTakes(d, d', name, size);
    }
  }

  lemma RemoveRefines(d: Image, name: CString, d': Image)
    requires Inv(d) && Step(d, Remove(name), d')
    ensures Inv(d') && StoreStep(StoreOf(d), Remove(name), StoreOf(d'))
  {
    hide Table, FreeBits, MapExact, EntriesOk, Abs, Removed;
    LookupIsAbs(d, Key(name));
    if Lookup(Table(d), Key(name), 0) != -1 {
      RemoveOnAbs(d, d', name);
      RemoveGives(d, d', name);
    }
  }

  lemma WriteRefines(d: Image, name: CString, pos: nat, data: seq<byte>, d': Image)
    requires Inv(d) && Step(d, Write(name, pos, data), d')
    ensures Inv(d') && StoreStep(StoreOf(d), Write(name, pos, data), StoreOf(d'))
  {
    hide Table, FreeBits, MapExact, EntriesOk, Abs, Overwritten, Contents, Splice;
    LookupIsAbs(d, Key(name));
    var i := Lookup(Table(d), Key(name), 0);
    if i != -1 {
      var written := data[..Clamp(Hdr(d, Table(d)[i].sector).numBytes, |data|, pos)];
      OverwriteKeepsInv(d, d', i, pos, written);
      OverwriteOnAbs(d, d', i, pos, written);
    }
  }

  /** Every step of the code is a step of the abstract store. */
  lemma StepRefines(d: Image, op: Op, d': Image)
    requires Inv(d) && Step(d, op, d')
    ensures Inv(d') && StoreStep(StoreOf(d), op, StoreOf(d'))
  {
    match op
    case Create(name, size) => CreateRefines(d, name, size, d');
    case Remove(name) => RemoveRefines(d, name, d');
    case Write(name, pos, data) => WriteRefines(d, name, pos, data, d');
  }

  /** A run: images joined by steps of the code. */
  ghost predicate Run(images: seq<Image>, ops: seq<Op>) {
    && |images| == |ops| + 1
    && Inv(images[0])
    && (forall k :: 0 <= k < |ops| ==> Inv(images[k]) ==> Step(images[k], ops[k], images[k + 1]))
  }

  /** Safety over whole runs: from any good image, every image reached satisfies the layout invariant,
      simulates the abstract store step by step, and never loses or duplicates a sector. */
  lemma {:induction false} RunRefines(images: seq<Image>, ops: seq<Op>, n: nat)
    requires Run(images, ops) && n <= |ops|
    ensures forall k :: 0 <= k <= n ==>
              Inv(images[k]) && Free(images[k]) + Needed(images[k], NUM_DIR_ENTRIES) == NUM_SECTORS
    ensures forall k :: 0 <= k < n ==> StoreStep(StoreOf(images[k]), ops[k], StoreOf(images[k + 1]))
  {
    hide Inv, Step, StoreStep, Needed, Free;
    if n > 0 {
      RunRefines(images, ops, n - 1);
      StepRefines(images[n - 1], ops[n - 1], images[n]);
    }
    FreePlusOwned(images[n]);
  }

  /** A step that does not remove the file listed at i keeps its entry and its header. */
  lemma StepKeepsEntry(d: Image, op: Op, d': Image, i: nat)
    requires Inv(d) && Step(d, op, d') && i < NUM_DIR_ENTRIES && Table(d)[i].inUse
    requires op.Remove? ==> Key(op.name) != Key(Table(d)[i].name)
    ensures Inv(d') && Table(d')[i] == Table(d)[i]
    ensures Hdr(d', Table(d)[i].sector) == Hdr(d, Table(d)[i].sector)
  {
    hide Table, FreeBits, MapExact, EntriesOk, Abs, CanCreate, Created, Removed, Overwritten, Contents, Good,
         StoreStep, Hdr;
    StepRefines(d, op, d');
    match op
    case Create(name, size) =>
      if CanCreate(d, name, size) {
        CreatedNames(d, d', name, size);
      }
    case Remove(name) =>
      if Lookup(Table(d), Key(name), 0) != -1 {
        RemovedNames(d, d', name);
      }
    case Write(name, pos, data) =>
      var k := Lookup(Table(d), Key(name), 0);
      if k != -1 {
        var written := data[..Clamp(Hdr(d, Table(d)[k].sector).numBytes, |data|, pos)];
        OverwriteKeepsInv(d, d', k, pos, written);
        OverwrittenContents(d, d', k, pos, written, i);
      }
  }

  /** Until it is removed, a file keeps its directory entry, header and sectors through every run: a header
      cached at Open stays right, and a later Remove clears exactly the sectors Create took. */
  lemma {:induction false} RunKeepsFile(images: seq<Image>, ops: seq<Op>, i: nat, n: nat)
    requires Run(images, ops) && n <= |ops| && i < NUM_DIR_ENTRIES && Table(images[0])[i].inUse
    requires forall k :: 0 <= k < n && ops[k].Remove? ==> Key(ops[k].name) != Key(Table(images[0])[i].name)
    ensures Inv(images[n])
    ensures var e := Table(images[0])[i];
            && Table(images[n])[i] == e
            && Hdr(images[n], e.sector) == Hdr(images[0], e.sector)
            && EntryExtent(images[n], e) == EntryExtent(images[0], e)
  {
    hide Step, Table, Hdr, Extent;
    if n > 0 {
      RunKeepsFile(images, ops, i, n - 1);
      StepKeepsEntry(images[n - 1], ops[n - 1], images[n], i);
    }
  }

  /** Reading through a handle whose header is current gives the slice of the abstract contents. */
  lemma HandleReads(d: Image, name: CString, h: Header, n: int, pos: nat)
    requires Inv(d) && Lookup(Table(d), Key(name), 0) != -1
    requires h == Hdr(d, Table(d)[Lookup(Table(d), Key(name), 0)].sector)
    ensures Good(h) && Key(name) in Abs(d) && |Abs(d)[Key(name)]| == h.numBytes
    ensures var m := Clamp(h.numBytes, n, pos);
            m > 0 ==> Contents(d, h)[pos..pos + m] == Abs(d)[Key(name)][pos..pos + m]
  {
    hide Table, FreeBits, MapExact, EntriesOk, Abs;
    LookupIsAbs(d, Key(name));
  }

  /** Writing through such a handle is a step of the run. */
  lemma HandleWrites(d: Image, d': Image, name: CString, h: Header, data: seq<byte>, pos: nat)
    requires Inv(d) && Lookup(Table(d), Key(name), 0) != -1
    requires h == Hdr(d, Table(d)[Lookup(Table(d), Key(name), 0)].sector)
    requires Good(h) && Written(d, d', h, pos, data[..Clamp(h.numBytes, |data|, pos)])
    ensures Step(d, Write(name, pos, data), d')
  {
    hide Table, FreeBits, MapExact, EntriesOk, Abs, Written;
    LookupIsAbs(d, Key(name));
  }
}

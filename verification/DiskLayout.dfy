/** What a disk image means: the bitmap and directory stored on it, the sectors each file owns,
    the invariant every operation keeps, and the map from names to contents it stands for. */
module DiskLayout {
  import opened Bytes
  import opened BitMaps
  import opened Sectors
  import opened FileHeaders
  import opened OpenFiles
  import opened Directories

  const FREE_MAP_SECTOR := 0
  const DIRECTORY_SECTOR := 1
  const FREE_MAP_FILE_SIZE := 128
  const NUM_DIR_ENTRIES := 10
  const DIRECTORY_FILE_SIZE := 200

  function Hdr(d: Image, s: int): (h: Header)
    ensures Sized(h)
  {
    if 0 <= s < NUM_SECTORS then Decode(d[s]) else Header(0, 0, seq(NUM_DIRECT, i => 0))
  }

  function MapHdr(d: Image): Header { Hdr(d, FREE_MAP_SECTOR) }

  function DirHdr(d: Image): Header { Hdr(d, DIRECTORY_SECTOR) }

  /** The sectors of a file: its header and its data. */
  ghost function Extent(h: Header, s: int): set<int> {
    {s} + set i | 0 <= i < h.numSectors && i < |h.dataSectors| :: h.dataSectors[i]
  }

  ghost function SystemExtent(d: Image): set<int> {
    Extent(MapHdr(d), FREE_MAP_SECTOR) + Extent(DirHdr(d), DIRECTORY_SECTOR)
  }

  /** The two files the system keeps open are intact and do not overlap. */
  ghost predicate SystemOk(d: Image) {
    && Good(MapHdr(d)) && MapHdr(d).numBytes == FREE_MAP_FILE_SIZE
    && Good(DirHdr(d)) && DirHdr(d).numBytes == DIRECTORY_FILE_SIZE
    && FREE_MAP_SECTOR !in Data(MapHdr(d)) && DIRECTORY_SECTOR !in Data(DirHdr(d))
    && Extent(MapHdr(d), FREE_MAP_SECTOR) !! Extent(DirHdr(d), DIRECTORY_SECTOR)
  }

  ghost function FreeBits(d: Image): (bits: seq<bool>)
    requires SystemOk(d)
    ensures |bits| == NUM_SECTORS
  {
    StoredBits(Contents(d, MapHdr(d)), NUM_SECTORS)
  }

  ghost function Table(d: Image): (t: seq<DirectoryEntry>)
    requires SystemOk(d)
    ensures |t| == NUM_DIR_ENTRIES && TableOk(t)
  {
    DecodeTable(Contents(d, DirHdr(d)), NUM_DIR_ENTRIES)
  }

  // The invariant, over a table t of entries.

  ghost function EntryExtent(d: Image, e: DirectoryEntry): set<int> {
    if e.inUse then Extent(Hdr(d, e.sector), e.sector) else {}
  }

  ghost predicate EntryGood(d: Image, e: DirectoryEntry) {
    e.inUse ==>
      && 0 <= e.sector < NUM_SECTORS
      && Good(Hdr(d, e.sector))
      && e.sector !in Data(Hdr(d, e.sector))
      && EntryExtent(d, e) !! SystemExtent(d)
  }

  ghost predicate Separate(d: Image, e: DirectoryEntry, f: DirectoryEntry) {
    && EntryExtent(d, e) !! EntryExtent(d, f)
    && (e.inUse && f.inUse ==> Key(e.name) != Key(f.name))
  }

  ghost predicate EntriesOk(d: Image, t: seq<DirectoryEntry>) {
    && (forall i :: 0 <= i < |t| ==> EntryGood(d, t[i]))
    && (forall i, j :: 0 <= i < j < |t| ==> Separate(d, t[i], t[j]))
  }

  /** s belongs to a system file or to a listed file. */
  ghost predicate InUse(d: Image, t: seq<DirectoryEntry>, s: int) {
    s in SystemExtent(d) || exists i :: 0 <= i < |t| && s in EntryExtent(d, t[i])
  }

  ghost predicate MapExact(d: Image, t: seq<DirectoryEntry>, bits: seq<bool>) {
    |bits| == NUM_SECTORS && forall s :: 0 <= s < NUM_SECTORS ==> (bits[s] <==> InUse(d, t, s))
  }

  /** The map marks exactly the sectors in use, all extents are disjoint, and names are distinct. */
  ghost predicate Inv(d: Image) {
    && SystemOk(d)
    && EntriesOk(d, Table(d))
    && MapExact(d, Table(d), FreeBits(d))
  }

  /** The abstract state: each listed name's key, with the file's bytes. */
  ghost function Abs(d: Image): map<seq<byte>, seq<byte>>
    requires Inv(d)
  {
    var t := Table(d);
    assert forall i, j :: 0 <= i < |t| && 0 <= j < |t| && i != j && t[i].inUse && t[j].inUse ==>
                            Key(t[i].name) != Key(t[j].name) by {
      forall i, j | 0 <= i < |t| && 0 <= j < |t| && i != j && t[i].inUse && t[j].inUse
        ensures Key(t[i].name) != Key(t[j].name)
      {
        assert if i < j then Separate(d, t[i], t[j]) else Separate(d, t[j], t[i]);
      }
    }
    assert forall i :: 0 <= i < |t| ==> EntryGood(d, t[i]);
    map i | 0 <= i < |t| && t[i].inUse :: Key(t[i].name) := Contents(d, Hdr(d, t[i].sector))
  }

  // Frame facts: what a change of some sectors leaves alone.

  /** Only sectors in `touched` may differ. */
  ghost predicate Agree(d: Image, d': Image, touched: set<int>) {
    forall s :: 0 <= s < NUM_SECTORS && s !in touched ==> d'[s] == d[s]
  }

  lemma SameHeader(d: Image, d': Image, touched: set<int>, s: int)
    requires Agree(d, d', touched) && s !in touched
    ensures Hdr(d', s) == Hdr(d, s)
  {
  }

  lemma SameContents(d: Image, d': Image, touched: set<int>, h: Header, s: int)
    requires Good(h) && Agree(d, d', touched)
    requires Extent(h, s) !! touched
    ensures Contents(d', h) == Contents(d, h)
  {
    forall k | 0 <= k < h.numBytes
      ensures FileByte(d', h, k) == FileByte(d, h, k)
    {
      assert h.dataSectors[k / SECTOR_SIZE] in Extent(h, s);
    }
  }

  ghost function MapData(d: Image): set<int> {
    Extent(MapHdr(d), FREE_MAP_SECTOR) - {FREE_MAP_SECTOR}
  }

  ghost function DirData(d: Image): set<int> {
    Extent(DirHdr(d), DIRECTORY_SECTOR) - {DIRECTORY_SECTOR}
  }

  /** From d to d' the directory became t and the map became bits; apart from the sectors that
      store those two, only `touched` changed. */
  ghost predicate Committed(d: Image, d': Image, t: seq<DirectoryEntry>, bits: seq<bool>, touched: set<int>) {
    && SystemOk(d) && SystemOk(d')
    && MapHdr(d') == MapHdr(d) && DirHdr(d') == DirHdr(d)
    && Table(d') == t && FreeBits(d') == bits
    && Agree(d, d', touched + MapData(d) + DirData(d))
  }

  lemma ExtentData(h: Header, s: int)
    requires Good(h) && s !in Data(h)
    ensures forall x :: x in Extent(h, s) - {s} <==> x in Data(h)
    ensures s !in Extent(h, s) - {s}
  {
    forall x
      ensures x in Extent(h, s) - {s} <==> x in Data(h)
    {
      if x in Data(h) {
        var i :| 0 <= i < |Data(h)| && Data(h)[i] == x;
        assert h.dataSectors[i] in Extent(h, s);
      }
    }
  }

  lemma CommitsCompose(d: Image, d1: Image, d2: Image, t1: seq<DirectoryEntry>, b1: seq<bool>, touched1: set<int>,
                       t2: seq<DirectoryEntry>, b2: seq<bool>, touched2: set<int>)
    requires Committed(d, d1, t1, b1, touched1) && Committed(d1, d2, t2, b2, touched2)
    ensures Committed(d, d2, t2, b2, touched1 + touched2)
  {
    hide SystemOk, Table, FreeBits, Extent;
    assert MapData(d1) == MapData(d) && DirData(d1) == DirData(d);
  }

  /** Writing the table to the directory file commits it. */
  lemma TableFlushed(d: Image, d': Image, t: seq<DirectoryEntry>)
    requires SystemOk(d) && |t| == NUM_DIR_ENTRIES && TableOk(t)
    requires Written(d, d', DirHdr(d), 0, EncodeTable(t))
    ensures Committed(d, d', t, FreeBits(d), {})
  {
    ExtentData(DirHdr(d), DIRECTORY_SECTOR);
    assert Agree(d, d', DirData(d));
    SameHeader(d, d', DirData(d), FREE_MAP_SECTOR);
    SameHeader(d, d', DirData(d), DIRECTORY_SECTOR);
    SameContents(d, d', DirData(d), MapHdr(d), FREE_MAP_SECTOR);
    assert Contents(d', DirHdr(d)) == EncodeTable(t);
    TableRoundTrip(t);
  }

  /** Writing the map's words to the bitmap file commits them. */
  lemma MapFlushed(d: Image, d': Image, ws: seq<bv32>)
    requires SystemOk(d) && |ws| == 32
    requires Written(d, d', MapHdr(d), 0, WordBytes(ws))
    ensures Committed(d, d', Table(d), BitsOf(ws, NUM_SECTORS), {})
  {
    ExtentData(MapHdr(d), FREE_MAP_SECTOR);
    assert Agree(d, d', MapData(d));
    SameHeader(d, d', MapData(d), FREE_MAP_SECTOR);
    SameHeader(d, d', MapData(d), DIRECTORY_SECTOR);
    SameContents(d, d', MapData(d), DirHdr(d), DIRECTORY_SECTOR);
    assert Contents(d', MapHdr(d)) == WordBytes(ws);
    WordBytesRoundTrip(ws);
  }

  /** Writing a header to a sector outside the system files leaves both of those alone. */
  lemma HeaderFlushed(d: Image, h: Header, s: int)
    requires SystemOk(d) && Sized(h) && 0 <= s < NUM_SECTORS && s !in SystemExtent(d)
    ensures Committed(d, d[s := Encode(h)], Table(d), FreeBits(d), {s}) && Hdr(d[s := Encode(h)], s) == h
  {
    var d' := d[s := Encode(h)];
    assert Agree(d, d', {s});
    SameHeader(d, d', {s}, FREE_MAP_SECTOR);
    SameHeader(d, d', {s}, DIRECTORY_SECTOR);
    SameContents(d, d', {s}, MapHdr(d), FREE_MAP_SECTOR);
    SameContents(d, d', {s}, DirHdr(d), DIRECTORY_SECTOR);
    HeaderRoundTrip(h);
  }
}

/** Directory: a fixed table of (name, header sector) entries stored in a file. */
module Directories {
  import opened Bytes
  import opened Sectors
  import opened FileHeaders
  import opened OpenFiles

  const FILE_NAME_MAX_LEN := 9
  const ENTRY_SIZE := 20

  /** The characters of a C string, without its terminator. */
  type CString = s: seq<byte> | 0 !in s

  // strncmp and strncpy with the limit the directory uses.

  /** Character i, where everything from the terminator on reads as NUL. */
  function CharAt(s: seq<byte>, i: nat): byte {
    if i < |s| then s[i] else 0
  }

  /** strncmp(a + i, b + i, 9 - i) == 0. */
  predicate StrNEq(a: seq<byte>, b: seq<byte>, i: nat)
    decreases FILE_NAME_MAX_LEN - i
  {
    i >= FILE_NAME_MAX_LEN
    || (CharAt(a, i) == CharAt(b, i) && (CharAt(a, i) == 0 || StrNEq(a, b, i + 1)))
  }

  /** strncpy(field, name, 9): NUL-padded, and the tenth byte is left alone. */
  function StrNCpy(field: seq<byte>, name: CString): (r: seq<byte>)
    requires |field| == FILE_NAME_MAX_LEN + 1
    ensures |r| == FILE_NAME_MAX_LEN + 1
  {
    seq(FILE_NAME_MAX_LEN, k requires 0 <= k < FILE_NAME_MAX_LEN => CharAt(name, k)) + [field[FILE_NAME_MAX_LEN]]
  }

  /** The copy: the name's characters up to nine, NULs after them, and the tenth byte as it was. */
  lemma StrNCpyIs(field: seq<byte>, name: CString, k: nat)
    requires |field| == 10 && k < 10
    ensures StrNCpy(field, name)[k] == if k == 9 then field[9] else if k < |name| then name[k] else 0
  {
  }

  /** What the directory can tell of a name: its characters from i on, up to a NUL or the ninth. */
  function KeyFrom(s: seq<byte>, i: nat): seq<byte>
    decreases FILE_NAME_MAX_LEN - i
  {
    if i >= FILE_NAME_MAX_LEN || CharAt(s, i) == 0 then [] else [CharAt(s, i)] + KeyFrom(s, i + 1)
  }

  function Key(s: seq<byte>): seq<byte> {
    KeyFrom(s, 0)
  }

  /** The key of a name is its first nine characters, or all of them if there are fewer. */
  lemma KeyIs(s: CString)
    ensures Key(s) == s[..if |s| < 9 then |s| else 9]
  {
    KeyFromIs(s, 0);
  }

  lemma {:induction false} KeyFromIs(s: CString, i: nat)
    requires i <= 9
    ensures KeyFrom(s, i) == if i < |s| then s[i..if |s| < 9 then |s| else 9] else []
    decreases 9 - i
  {
    if i < 9 && i < |s| {
      KeyFromIs(s, i + 1);
    }
  }

  /** Two names are the same file exactly when they agree on their first nine characters. */
  lemma NamesAgree(a: CString, b: CString)
    ensures StrNEq(a, b, 0) <==> a[..if |a| < 9 then |a| else 9] == b[..if |b| < 9 then |b| else 9]
  {
    StrNEqIsKeyEq(a, b, 0);
    KeyIs(a);
    KeyIs(b);
  }

  /** The comparison distinguishes names exactly by their keys. */
  lemma {:induction false} StrNEqIsKeyEq(a: seq<byte>, b: seq<byte>, i: nat)
    ensures StrNEq(a, b, i) <==> KeyFrom(a, i) == KeyFrom(b, i)
    decreases FILE_NAME_MAX_LEN - i
  {
    if i < FILE_NAME_MAX_LEN && CharAt(a, i) == CharAt(b, i) && CharAt(a, i) != 0 {
      StrNEqIsKeyEq(a, b, i + 1);
      assert KeyFrom(a, i)[1..] == KeyFrom(a, i + 1);
      assert KeyFrom(b, i)[1..] == KeyFrom(b, i + 1);
    } else if i < FILE_NAME_MAX_LEN && CharAt(a, i) != CharAt(b, i) && CharAt(a, i) != 0 && CharAt(b, i) != 0 {
      assert KeyFrom(a, i)[0] != KeyFrom(b, i)[0];
    }
  }

  lemma {:induction false} KeyOfAgreeing(a: seq<byte>, b: seq<byte>, i: nat)
    requires forall k :: 0 <= k < FILE_NAME_MAX_LEN ==> CharAt(a, k) == CharAt(b, k)
    ensures KeyFrom(a, i) == KeyFrom(b, i)
    decreases FILE_NAME_MAX_LEN - i
  {
    if i < FILE_NAME_MAX_LEN {
      KeyOfAgreeing(a, b, i + 1);
    }
  }

  /** A copied name keeps its key. */
  lemma KeyOfCopy(field: seq<byte>, name: CString)
    requires |field| == FILE_NAME_MAX_LEN + 1
    ensures Key(StrNCpy(field, name)) == Key(name)
  {
    KeyOfAgreeing(StrNCpy(field, name), name, 0);
  }

  /** An entry, with the padding bytes the compiler leaves in it. */
  datatype DirectoryEntry = DirectoryEntry(inUse: bool, sector: int32, name: seq<byte>, pad: seq<byte>)

  predicate EntryOk(e: DirectoryEntry) {
    |e.name| == FILE_NAME_MAX_LEN + 1 && |e.pad| == 5
  }

  /** What an entry can hold in memory, initialised or not. */
  type Entry = e: DirectoryEntry | EntryOk(e)
    witness DirectoryEntry(false, 0, seq(FILE_NAME_MAX_LEN + 1, i => 0), seq(5, i => 0))

  ghost predicate TableOk(t: seq<DirectoryEntry>) {
    forall i :: 0 <= i < |t| ==> EntryOk(t[i])
  }

  function EncodeEntry(e: DirectoryEntry): (b: seq<byte>)
    requires EntryOk(e)
    ensures |b| == ENTRY_SIZE
  {
    [if e.inUse then 1 else 0] + e.pad[..3] + Le(Unsigned(e.sector)) + e.name + e.pad[3..]
  }

  function DecodeEntry(b: seq<byte>): (e: DirectoryEntry)
    requires |b| == ENTRY_SIZE
    ensures EntryOk(e)
  {
    DirectoryEntry(b[0] != 0, Signed(FromLe(b[4..8])), b[8..18], b[1..4] + b[18..20])
  }

  /** Where the compiler puts the fields: the flag first, the sector at 4, the name at 8. */
  lemma EntryLayout(e: DirectoryEntry)
    requires EntryOk(e)
    ensures var b := EncodeEntry(e);
            && (b[0] != 0 <==> e.inUse)
            && b[4..8] == Le(Unsigned(e.sector))
            && b[8..18] == e.name
  {
  }

  lemma EntryRoundTrip(e: DirectoryEntry)
    requires EntryOk(e)
    ensures DecodeEntry(EncodeEntry(e)) == e
  {
    var b := EncodeEntry(e);
    assert b[1..4] == e.pad[..3];
    assert b[4..8] == Le(Unsigned(e.sector));
    assert b[8..18] == e.name;
    assert b[18..20] == e.pad[3..];
    assert e.pad == e.pad[..3] + e.pad[3..];
    LeRoundTrip(Unsigned(e.sector));
  }

  function EncodeTable(t: seq<DirectoryEntry>): (b: seq<byte>)
    requires TableOk(t)
    ensures |b| == ENTRY_SIZE * |t|
  {
    seq(ENTRY_SIZE * |t|, k requires 0 <= k < ENTRY_SIZE * |t| => EncodeEntry(t[k / ENTRY_SIZE])[k % ENTRY_SIZE])
  }

  function DecodeTable(b: seq<byte>, n: nat): (t: seq<DirectoryEntry>)
    requires |b| == ENTRY_SIZE * n
    ensures |t| == n && TableOk(t)
  {
    seq(n, i requires 0 <= i < n => DecodeEntry(b[ENTRY_SIZE * i..ENTRY_SIZE * i + ENTRY_SIZE]))
  }

  /** A table written to a file is read back unchanged. */
  lemma TableRoundTrip(t: seq<DirectoryEntry>)
    requires TableOk(t)
    ensures DecodeTable(EncodeTable(t), |t|) == t
  {
    hide EncodeEntry, DecodeEntry, EncodeTable;
    var b := EncodeTable(t);
    forall i | 0 <= i < |t|
      ensures DecodeTable(b, |t|)[i] == t[i]
    {
      EncodedSlot(t, i);
      EntryRoundTrip(t[i]);
    }
  }

  lemma EncodedSlot(t: seq<DirectoryEntry>, i: nat)
    requires TableOk(t) && i < |t|
    ensures EncodeTable(t)[ENTRY_SIZE * i..ENTRY_SIZE * i + ENTRY_SIZE] == EncodeEntry(t[i])
  {
    hide EncodeEntry;
  }

  /** Entry i is a listed file with that key. */
  predicate Names(t: seq<DirectoryEntry>, i: nat, key: seq<byte>) {
    i < |t| && t[i].inUse && Key(t[i].name) == key
  }

  /** The first index in i..|t| of an entry with that key, or -1. */
  function Lookup(t: seq<DirectoryEntry>, key: seq<byte>, i: nat): (r: int)
    ensures r == -1 || (i <= r < |t| && Names(t, r, key))
    ensures forall j :: i <= j < (if r == -1 then |t| else r) ==> !Names(t, j, key)
    decreases |t| - i
  {
    if i >= |t| then -1 else if Names(t, i, key) then i else Lookup(t, key, i + 1)
  }

  /** The first index in i..|t| of an unused entry, or -1. */
  function FreeSlot(t: seq<DirectoryEntry>, i: nat): (r: int)
    ensures r == -1 || (i <= r < |t| && !t[r].inUse)
    ensures forall j :: i <= j < (if r == -1 then |t| else r) ==> t[j].inUse
    decreases |t| - i
  {
    if i >= |t| then -1 else if !t[i].inUse then i else FreeSlot(t, i + 1)
  }

  /** The entry Add stores in a slot. */
  function Filled(slot: DirectoryEntry, name: CString, newSector: int32): (e: DirectoryEntry)
    requires EntryOk(slot)
    ensures EntryOk(e)
  {
    DirectoryEntry(true, newSector, StrNCpy(slot.name, name), slot.pad)
  }

  class Directory {
    const tableSize: nat
    const table: array<Entry>

    ghost predicate Valid() {
      table.Length == tableSize
    }

    /** An empty table over uninitialised memory. */
    constructor (size: nat)
      ensures Valid() && fresh(table) && tableSize == size
      ensures forall i :: 0 <= i < size ==> !table[i].inUse
    {
      tableSize := size;
      table := new Entry[size];
      new;
      for i := 0 to size
        invariant forall j :: 0 <= j < i ==> !table[j].inUse
      {
        table[i] := table[i].(inUse := false);
      }
    }

    method FetchFrom(disk: SynchDisk, file: OpenFile)
      requires Valid() && Good(file.hdr.Value()) && file.hdr.numBytes == ENTRY_SIZE * tableSize
      modifies table
      ensures Valid() && table[..] == DecodeTable(Contents(disk.image, file.hdr.Value()), tableSize)
    {
      var raw := new byte[ENTRY_SIZE * tableSize];
      ghost var c := Contents(disk.image, file.hdr.Value());
      var n := file.ReadAt(disk, raw, 0, ENTRY_SIZE * tableSize, 0);
      assert raw[..] == c by {
        assert n == raw.Length;
        assert n > 0 ==> raw[0..n] == raw[..] && c[0..n] == c;
      }
      var t := DecodeTable(raw[..], tableSize);
      forall i | 0 <= i < tableSize {
        table[i] := t[i];
      }
      assert table[..] == t;
    }

    method WriteBack(disk: SynchDisk, file: OpenFile)
      requires Valid() && Good(file.hdr.Value()) && file.hdr.numBytes == ENTRY_SIZE * tableSize
      modifies disk
      ensures Written(old(disk.image), disk.image, file.hdr.Value(), 0, EncodeTable(table[..]))
    {
      var b := EncodeTable(table[..]);
      var raw := new byte[|b|](i requires 0 <= i < |b| => b[i]);
      assert raw[..] == b;
      var n, garbage := file.WriteAt(disk, raw, ENTRY_SIZE * tableSize, 0);
      assert raw[..n] == b;
    }

    method FindIndex(name: CString) returns (r: int)
      requires Valid()
      ensures r == Lookup(table[..], Key(name), 0)
    {
      for i := 0 to tableSize
        invariant Lookup(table[..], Key(name), i) == Lookup(table[..], Key(name), 0)
      {
        StrNEqIsKeyEq(table[i].name, name, 0);
        if table[i].inUse && StrNEq(table[i].name, name, 0) {
          return i;
        }
      }
      return -1;
    }

    /** The header sector of the named file, or -1. */
    method Find(name: CString) returns (r: int)
      requires Valid()
      ensures var i := Lookup(table[..], Key(name), 0); r == if i == -1 then -1 else table[i].sector
    {
      var i := FindIndex(name);
      if i != -1 {
        return table[i].sector;
      }
      return -1;
    }

    /** Fills the first unused slot, unless the name is listed or the table is full. */
    method Add(name: CString, newSector: int32) returns (ok: bool)
      requires Valid()
      modifies table
      ensures Valid()
      ensures ok == (Lookup(old(table[..]), Key(name), 0) == -1 && FreeSlot(old(table[..]), 0) != -1)
      ensures ok ==> var i := FreeSlot(old(table[..]), 0);
                     table[..] == old(table[..])[i := Filled(old(table[i]), name, newSector)]
      ensures !ok ==> table[..] == old(table[..])
    {
      var k := FindIndex(name);
      if k != -1 {
        return false;
      }
      for i := 0 to tableSize
        invariant table[..] == old(table[..])
        invariant FreeSlot(table[..], i) == FreeSlot(table[..], 0)
      {
        if !table[i].inUse {
          table[i] := Filled(table[i], name, newSector);
          return true;
        }
      }
      return false;
    }

    method Remove(name: CString) returns (ok: bool)
      requires Valid()
      modifies table
      ensures Valid()
      ensures var i := Lookup(old(table[..]), Key(name), 0);
              && ok == (i != -1)
              && table[..] == if ok then old(table[..])[i := old(table[i]).(inUse := false)] else old(table[..])
    {
      var i := FindIndex(name);
      if i == -1 {
        return false;
      }
      table[i] := table[i].(inUse := false);
      return true;
    }
  }
}

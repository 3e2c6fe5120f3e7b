/** Copying strings between kernel and user space, a byte at a time through address translation. */
module UserCopies {
  import opened Bytes
  import opened Memory

  /** The first index in i..limit where b holds a NUL, or limit. */
  function NulAt(b: seq<byte>, i: nat, limit: nat): (r: nat)
    requires i <= limit
    ensures i <= r <= limit
    ensures forall j :: i <= j < r && j < |b| ==> b[j] != 0
    ensures r < limit ==> r < |b| && b[r] == 0
    decreases limit - i
  {
    if i == limit then limit else if i < |b| && b[i] == 0 then i else NulAt(b, i + 1, limit)
  }

  /** How many bytes System2User copies: up to and including a NUL, at most len. */
  function CopyLength(b: seq<byte>, len: nat): (n: nat)
    ensures n <= len
    ensures forall j :: 0 <= j < n - 1 && j < |b| ==> b[j] != 0
    ensures 0 < n < len ==> n <= |b| && b[n - 1] == 0
    ensures n == 0 ==> len == 0
  {
    var z := NulAt(b, 0, len);
    if z < len then z + 1 else len
  }

  lemma OneByte(b: byte)
    ensures ToBytes(SignedChar(b), 1) == [b]
    ensures FromBytes([b]) == SignedChar(b) && (SignedChar(b) == 0 <==> b == 0)
  {
    assert Unsigned(SignedChar(b)) == if b < 128 then b else 0x100 * 0xff_ffff + b;
    assert ToBytes(SignedChar(b), 1)[0] == b;
  }

  /** A one-byte write through a good table, seen in the flat memory. */
  method PutByte(m: Machine, virtAddr: int, c: byte)
    requires m.Valid() && GoodTable(m.pageTable[..]) && 0 <= virtAddr < m.pageTable.Length * PAGE_SIZE
    modifies m.pageTable, m.mainMemory
    ensures GoodTable(m.pageTable[..])
    ensures Flat(m.mainMemory[..], m.pageTable[..])
         == Replaced(old(Flat(m.mainMemory[..], m.pageTable[..])), virtAddr, [c])
  {
    hide Translation, Touched, Flat, Replaced, ToBytes, SignedChar;
    ghost var mem, pt := m.mainMemory[..], m.pageTable[..];
    TranslationIsFlat(pt, virtAddr, 1, true);
    WriteIsFlat(mem, pt, virtAddr, SignedChar(c), 1);
    OneByte(c);
    var ok := m.WriteMem(virtAddr, 1, SignedChar(c));
    TouchedMapsTheSame(m.mainMemory[..], pt, virtAddr, 1, true);
  }

  /** A one-byte read through a good table. */
  method GetByte(m: Machine, virtAddr: int) returns (c: byte)
    requires m.Valid() && GoodTable(m.pageTable[..]) && 0 <= virtAddr < m.pageTable.Length * PAGE_SIZE
    modifies m.pageTable
    ensures GoodTable(m.pageTable[..])
    ensures Flat(m.mainMemory[..], m.pageTable[..]) == old(Flat(m.mainMemory[..], m.pageTable[..]))
    ensures c == old(Flat(m.mainMemory[..], m.pageTable[..]))[virtAddr]
  {
    hide Translation, Touched, SignedChar;
    ghost var mem, pt := m.mainMemory[..], m.pageTable[..];
    TranslationIsFlat(pt, virtAddr, 1, false);
    ReadIsFlat(mem, pt, virtAddr, 1);
    var ok, oneChar := m.ReadMem(virtAddr, 1);
    ghost var b := Flat(mem, pt)[virtAddr];
    assert Flat(mem, pt)[virtAddr..virtAddr + 1] == [b];
    OneByte(b);
    TouchedMapsTheSame(mem, pt, virtAddr, 1, false);
    CharToByte(b);
    c := oneChar % 256;
  }

  lemma CharToByte(b: byte)
    ensures SignedChar(b) % 256 == b
  {
  }

  /** Copies a buffer out to user memory, stopping after a NUL. */
  method System2User(m: Machine, virtAddr: int32, len: int, buffer: seq<byte>) returns (r: int)
    requires m.Valid() && GoodTable(m.pageTable[..])
    requires len <= |buffer|
    requires len > 0 ==> 0 <= virtAddr && virtAddr + CopyLength(buffer, len) <= m.pageTable.Length * PAGE_SIZE
    modifies m.pageTable, m.mainMemory
    ensures GoodTable(m.pageTable[..])
    ensures len < 0 ==> r == -1
    ensures len >= 0 ==> r == CopyLength(buffer, len)
    ensures Flat(m.mainMemory[..], m.pageTable[..]) ==
            if len <= 0 then old(Flat(m.mainMemory[..], m.pageTable[..]))
            else Replaced(old(Flat(m.mainMemory[..], m.pageTable[..])), virtAddr, buffer[..r])
  {
    if len < 0 {
      return -1;
    }
    if len == 0 {
      return 0;
    }
    hide Flat, GoodTable;
    ghost var flat := Flat(m.mainMemory[..], m.pageTable[..]);
    var i := 0;
    var more := true;
    while more
      invariant 0 <= i <= len && GoodTable(m.pageTable[..])
      invariant more ==> i < len && NulAt(buffer, i, len) == NulAt(buffer, 0, len)
      invariant !more ==> i == CopyLength(buffer, len)
      invariant Flat(m.mainMemory[..], m.pageTable[..]) == Replaced(flat, virtAddr, buffer[..i])
      decreases len - i + if more then 1 else 0
    {
      var oneChar := buffer[i];
      PutByte(m, virtAddr + i, oneChar);
      ReplacedMore(flat, virtAddr, buffer, i);
      i := i + 1;
      more := i < len && oneChar != 0;
    }
    return i;
  }

  lemma ReplacedMore(flat: seq<byte>, at: nat, b: seq<byte>, i: nat)
    requires i < |b| && at + i < |flat|
    ensures Replaced(Replaced(flat, at, b[..i]), at + i, [b[i]]) == Replaced(flat, at, b[..i + 1])
  {
    assert b[..i + 1] == b[..i] + [b[i]];
  }

  /** Copies a string in from user memory into a zeroed buffer of limit + 1 bytes. */
  method User2System(m: Machine, virtAddr: nat, limit: nat) returns (kernelBuf: array<byte>)
    requires m.Valid() && GoodTable(m.pageTable[..])
    requires virtAddr <= m.pageTable.Length * PAGE_SIZE
    requires var rest := Flat(m.mainMemory[..], m.pageTable[..])[virtAddr..];
             NulAt(rest, 0, limit) < limit || limit <= |rest|
    modifies m.pageTable
    ensures fresh(kernelBuf) && kernelBuf.Length == limit + 1
    ensures GoodTable(m.pageTable[..])
    ensures Flat(m.mainMemory[..], m.pageTable[..]) == old(Flat(m.mainMemory[..], m.pageTable[..]))
    ensures var rest := Flat(m.mainMemory[..], m.pageTable[..])[virtAddr..];
            var n := NulAt(rest, 0, limit);
            && n <= |rest| && kernelBuf[..n] == rest[..n]
            && (forall k :: n <= k < kernelBuf.Length ==> kernelBuf[k] == 0)
  {
    hide Flat, GoodTable;
    kernelBuf := new byte[limit + 1](i => 0);
    ghost var flat := Flat(m.mainMemory[..], m.pageTable[..]);
    ghost var rest := flat[virtAddr..];
    var i := 0;
    while i < limit
      invariant 0 <= i <= limit && i <= |rest| && NulAt(rest, i, limit) == NulAt(rest, 0, limit)
      invariant GoodTable(m.pageTable[..]) && Flat(m.mainMemory[..], m.pageTable[..]) == flat
      invariant kernelBuf[..i] == rest[..i]
      invariant forall k :: i <= k < kernelBuf.Length ==> kernelBuf[k] == 0
    {
      var oneChar := GetByte(m, virtAddr + i);
      kernelBuf[i] := oneChar;
      if oneChar == 0 {
        return;
      }
      i := i + 1;
    }
  }

  /** A string copied out with its terminator is read back whole, wherever it lies in the address space. */
  lemma StringRoundTrip(flat: seq<byte>, at: nat, s: seq<byte>, len: nat, limit: nat)
    requires 0 !in s && |s| < len && |s| <= limit && at + |s| + 1 <= |flat|
    ensures forall buffer :: |buffer| >= len && buffer[..|s| + 1] == s + [0] ==> CopyLength(buffer, len) == |s| + 1
    ensures var rest := Replaced(flat, at, s + [0])[at..];
            NulAt(rest, 0, limit) == |s| && rest[..|s|] == s
  {
    var rest := Replaced(flat, at, s + [0])[at..];
    NulFound(rest, s, 0, limit);
    forall buffer: seq<byte> | |buffer| >= len && buffer[..|s| + 1] == s + [0]
      ensures CopyLength(buffer, len) == |s| + 1
    {
      assert buffer[|s|] == buffer[..|s| + 1][|s|];
      NulFound(buffer, s, 0, len);
    }
  }

  lemma {:induction false} NulFound(b: seq<byte>, s: seq<byte>, i: nat, limit: nat)
    requires 0 !in s && i <= |s| <= limit && |s| < |b| && b[..|s|] == s && b[|s|] == 0
    ensures NulAt(b, i, limit) == |s|
    decreases |s| - i
  {
    if i < |s| {
      assert b[i] == b[..|s|][i];
      NulFound(b, s, i + 1, limit);
    }
  }

  /** A string without NULs, copied out with its terminator and read back, comes back whole and NUL-padded. */
  method CopyOutAndIn(m: Machine, virtAddr: nat, s: seq<byte>, len: nat, buffer: seq<byte>, limit: nat)
    returns (kernelBuf: array<byte>)
    requires m.Valid() && GoodTable(m.pageTable[..])
    requires 0 !in s && s + [0] <= buffer && |s| < len <= |buffer| && |s| <= limit
    requires virtAddr + |s| + 1 <= m.pageTable.Length * PAGE_SIZE
    modifies m.pageTable, m.mainMemory
    ensures fresh(kernelBuf) && kernelBuf.Length == limit + 1 && kernelBuf[..|s|] == s
    ensures forall k :: |s| <= k < kernelBuf.Length ==> kernelBuf[k] == 0
    ensures GoodTable(m.pageTable[..])
    ensures Flat(m.mainMemory[..], m.pageTable[..])
         == Replaced(old(Flat(m.mainMemory[..], m.pageTable[..])), virtAddr, s + [0])
  {
    hide Flat, GoodTable, Replaced;
    ghost var flat := Flat(m.mainMemory[..], m.pageTable[..]);
    StringRoundTrip(flat, virtAddr, s, len, limit);
    assert buffer[..|s| + 1] == s + [0];
    FitsAddress(m.pageTable[..], virtAddr);
    var copied := System2User(m, virtAddr, len, buffer);
    kernelBuf := User2System(m, virtAddr, limit);
  }

  lemma FitsAddress(pt: seq<TranslationEntry>, virtAddr: nat)
    requires GoodTable(pt) && virtAddr < |pt| * PAGE_SIZE
    ensures virtAddr < 0x8000_0000
  {
  }
}

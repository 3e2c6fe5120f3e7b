/** The simulated machine's memory: address translation and the 1, 2 and 4 byte accesses. */
module Memory {
  import opened Bytes

  const PAGE_SIZE := 128
  const NUM_PHYS_PAGES := 128
  const MEMORY_SIZE := 16384

  datatype TranslationEntry = TranslationEntry(virtualPage: int32, physicalPage: int32, valid: bool, readOnly: bool,
                                               use: bool, dirty: bool)

  datatype ExceptionType =
    | NoException | PageFaultException | ReadOnlyException | BusErrorException | AddressErrorException

  predicate AccessSize(size: int) {
    size == 1 || size == 2 || size == 4
  }

  /** The alignment the hardware insists on. */
  predicate Aligned(addr: int, size: int) {
    !(size == 4 && addr % 4 != 0) && !(size == 2 && addr % 2 != 0)
  }

  /** Outcome of translating a virtual address: the exception, and the physical address when there is none. */
  function Translation(pt: seq<TranslationEntry>, virtAddr: int32, size: int, writing: bool): (r: (ExceptionType, int))
    requires AccessSize(size)
    ensures r.0 == NoException ==> 0 <= r.1 && r.1 + size <= MEMORY_SIZE
  {
    if !Aligned(virtAddr, size) then (AddressErrorException, 0)
    else
      PageHolds(virtAddr, size);
      var vpn := Unsigned(virtAddr) / PAGE_SIZE;
      var offset := Unsigned(virtAddr) % PAGE_SIZE;
      if vpn >= |pt| then (AddressErrorException, 0)
      else if !pt[vpn].valid then (PageFaultException, 0)
      else if pt[vpn].readOnly && writing then (ReadOnlyException, 0)
      else if Unsigned(pt[vpn].physicalPage) >= NUM_PHYS_PAGES then (BusErrorException, 0)
      else (NoException, pt[vpn].physicalPage * PAGE_SIZE + offset)
  }

  /** Which exception an access raises, on any table: each test counts only if those before it pass. */
  lemma TranslationCases(pt: seq<TranslationEntry>, virtAddr: int32, size: int, writing: bool)
    requires AccessSize(size)
    ensures var e := Translation(pt, virtAddr, size, writing).0;
            var vpn := Unsigned(virtAddr) / 128;
            var mapped := virtAddr % size == 0 && vpn < |pt|;
            && (e == AddressErrorException <==> !mapped)
            && (e == PageFaultException <==> mapped && !pt[vpn].valid)
            && (e == ReadOnlyException <==> mapped && pt[vpn].valid && pt[vpn].readOnly && writing)
            && (e == BusErrorException <==> mapped && pt[vpn].valid && !(pt[vpn].readOnly && writing)
                                            && !(0 <= pt[vpn].physicalPage < 128))
            && (e == NoException ==> mapped && Translation(pt, virtAddr, size, writing).1
                                               == pt[vpn].physicalPage * 128 + Unsigned(virtAddr) % 128)
  {
  }

  /** An aligned access does not cross the end of its page. */
  lemma PageHolds(virtAddr: int32, size: int)
    requires AccessSize(size) && Aligned(virtAddr, size)
    ensures Unsigned(virtAddr) % PAGE_SIZE + size <= PAGE_SIZE
  {
  }

  /** The table after a successful access: the page's use bit, and on a write its dirty bit, are set. */
  function Touched(pt: seq<TranslationEntry>, virtAddr: int32, size: int, writing: bool): (pt': seq<TranslationEntry>)
    requires AccessSize(size)
    ensures |pt'| == |pt|
  {
    if Translation(pt, virtAddr, size, writing).0 != NoException then pt
    else
      var vpn := Unsigned(virtAddr) / PAGE_SIZE;
      pt[vpn := pt[vpn].(use := true, dirty := pt[vpn].dirty || writing)]
  }

  /** A successful access marks exactly its own page, and as dirty exactly on a write. */
  lemma TouchedIs(pt: seq<TranslationEntry>, virtAddr: int32, size: int, writing: bool, i: nat)
    requires AccessSize(size) && i < |pt|
    ensures var hit := Translation(pt, virtAddr, size, writing).0 == NoException && i == Unsigned(virtAddr) / 128;
            var e, e' := pt[i], Touched(pt, virtAddr, size, writing)[i];
            && e' == e.(use := e'.use, dirty := e'.dirty)
            && (e'.use <==> e.use || hit) && (e'.dirty <==> e.dirty || (hit && writing))
  {
  }

  /** A char read into an int: the host's char is signed. */
  function SignedChar(b: byte): int32 {
    if b < 128 then b else b - 256
  }

  /** It has the byte's bits and fits a signed char. */
  lemma SignedCharIs(b: byte)
    ensures -128 <= SignedChar(b) < 128 && (SignedChar(b) - b) % 256 == 0
  {
  }

  /** The value of `size` bytes, lowest first, as ReadMem returns it: bytes are sign-extended, halfwords are not. */
  function FromBytes(b: seq<byte>): int32
    requires AccessSize(|b|)
  {
    if |b| == 1 then SignedChar(b[0])
    else if |b| == 2 then (b[0] as int) + 0x100 * (b[1] as int)
    else Signed(FromLe(b))
  }

  /** The `size` low bytes of a value, lowest first. */
  function ToBytes(value: int32, size: int): (b: seq<byte>)
    requires AccessSize(size)
    ensures |b| == size
  {
    Le(Unsigned(value))[..size]
  }

  /** Memory with the bytes from `at` on replaced. */
  function Replaced(mem: seq<byte>, at: nat, b: seq<byte>): (mem': seq<byte>)
    requires at + |b| <= |mem|
    ensures |mem'| == |mem|
    ensures forall k :: 0 <= k < |mem| ==> mem'[k] == if at <= k < at + |b| then b[k - at] else mem[k]
  {
    mem[..at] + b + mem[at + |b|..]
  }

  class Machine {
    const mainMemory: array<byte>
    var pageTable: array<TranslationEntry>

    ghost predicate Valid() {
      mainMemory.Length == MEMORY_SIZE
    }

    constructor (pt: array<TranslationEntry>)
      ensures Valid() && pageTable == pt && fresh(mainMemory)
      ensures forall k :: 0 <= k < MEMORY_SIZE ==> mainMemory[k] == 0
    {
      mainMemory := new byte[MEMORY_SIZE](i => 0);
      pageTable := pt;
    }

    method Translate(virtAddr: int32, size: int, writing: bool) returns (e: ExceptionType, physAddr: int)
      requires AccessSize(size)
      modifies pageTable
      ensures e == Translation(old(pageTable[..]), virtAddr, size, writing).0
      ensures physAddr == Translation(old(pageTable[..]), virtAddr, size, writing).1
      ensures pageTable[..] == Touched(old(pageTable[..]), virtAddr, size, writing)
    {
      physAddr := 0;
      if (size == 4 && virtAddr % 4 != 0) || (size == 2 && virtAddr % 2 != 0) {
        return AddressErrorException, 0;
      }
      var vpn := Unsigned(virtAddr) / PAGE_SIZE;
      var offset := Unsigned(virtAddr) % PAGE_SIZE;
      if vpn >= pageTable.Length {
        return AddressErrorException, 0;
      } else if !pageTable[vpn].valid {
        return PageFaultException, 0;
      }
      if pageTable[vpn].readOnly && writing {
        return ReadOnlyException, 0;
      }
      var pageFrame := Unsigned(pageTable[vpn].physicalPage);
      if pageFrame >= NUM_PHYS_PAGES {
        return BusErrorException, 0;
      }
      pageTable[vpn] := pageTable[vpn].(use := true);
      if writing {
        pageTable[vpn] := pageTable[vpn].(dirty := true);
      }
      physAddr := pageFrame * PAGE_SIZE + offset;
      PageHolds(virtAddr, size);
      assert physAddr >= 0 && physAddr + size <= MEMORY_SIZE;
      return NoException, physAddr;
    }

    method ReadMem(addr: int32, size: int) returns (ok: bool, value: int32)
      requires Valid() && AccessSize(size)
      modifies pageTable
      ensures var (e, pa) := Translation(old(pageTable[..]), addr, size, false);
              && ok == (e == NoException)
              && (ok ==> value == FromBytes(mainMemory[pa..pa + size]))
      ensures pageTable[..] == Touched(old(pageTable[..]), addr, size, false)
    {
      var e, pa := Translate(addr, size, false);
      value := 0;
      if e != NoException {
        return false, value;
      }
      value := FromBytes(mainMemory[pa..pa + size]);
      ok := true;
    }

    method WriteMem(addr: int32, size: int, value: int32) returns (ok: bool)
      requires Valid() && AccessSize(size)
      modifies pageTable, mainMemory
      ensures var (e, pa) := Translation(old(pageTable[..]), addr, size, true);
              && ok == (e == NoException)
              && mainMemory[..] == if ok
                                  then Replaced(old(mainMemory[..]), pa, ToBytes(value, size))
                                  else old(mainMemory[..])
      ensures pageTable[..] == Touched(old(pageTable[..]), addr, size, true)
    {
      hide Translation, Touched, ToBytes;
      var e, pa := Translate(addr, size, true);
      if e != NoException {
        return false;
      }
      var b := ToBytes(value, size);
      ghost var pt := pageTable[..];
      StoreBytes(mainMemory, pa, b);
      assert pageTable[..] == pt;
      ok := true;
    }
  }

  /** The bytes of one access go to memory, lowest first. */
  method StoreBytes(mem: array<byte>, at: nat, b: seq<byte>)
    requires at + |b| <= mem.Length
    modifies mem
    ensures mem[..] == Replaced(old(mem[..]), at, b)
  {
    for i := 0 to |b|
      invariant mem[..] == Replaced(old(mem[..]), at, b[..i])
    {
      mem[at + i] := b[i];
    }
    assert b[..|b|] == b;
  }

  // The flat view.

  /** A table as the loader builds it: every page valid, writable and on its own frame. */
  ghost predicate GoodTable(pt: seq<TranslationEntry>) {
    && |pt| <= NUM_PHYS_PAGES
    && (forall i :: 0 <= i < |pt| ==> pt[i].valid && !pt[i].readOnly && 0 <= pt[i].physicalPage < NUM_PHYS_PAGES)
    && (forall i, j :: 0 <= i < j < |pt| ==> pt[i].physicalPage != pt[j].physicalPage)
  }

  /** Where virtual byte v lives. */
  function Physical(pt: seq<TranslationEntry>, v: nat): (pa: nat)
    requires GoodTable(pt) && v < |pt| * PAGE_SIZE
    ensures pa < MEMORY_SIZE && pa / PAGE_SIZE == pt[v / PAGE_SIZE].physicalPage && pa % PAGE_SIZE == v % PAGE_SIZE
  {
    pt[v / PAGE_SIZE].physicalPage * PAGE_SIZE + v % PAGE_SIZE
  }

  /** The process's address space as one byte sequence. */
  ghost function Flat(mem: seq<byte>, pt: seq<TranslationEntry>): (f: seq<byte>)
    requires |mem| == MEMORY_SIZE && GoodTable(pt)
    ensures |f| == |pt| * PAGE_SIZE
  {
    seq(|pt| * PAGE_SIZE, v requires 0 <= v < |pt| * PAGE_SIZE => mem[Physical(pt, v)])
  }

  /** Translation succeeds exactly for aligned addresses in the space, and an aligned access stays in one page. */
  lemma TranslationIsFlat(pt: seq<TranslationEntry>, addr: int32, size: int, writing: bool)
    requires GoodTable(pt) && AccessSize(size)
    ensures var (e, pa) := Translation(pt, addr, size, writing);
            && (e == NoException <==> Aligned(addr, size) && 0 <= addr < |pt| * PAGE_SIZE)
            && (e == NoException ==>
                  && addr + size <= |pt| * PAGE_SIZE
                  && (forall v :: addr <= v < addr + size ==> Physical(pt, v) == pa + (v - addr)))
  {
    var (e, pa) := Translation(pt, addr, size, writing);
    if e == NoException {
      assert addr % PAGE_SIZE + size <= PAGE_SIZE;
      forall v | addr <= v < addr + size
        ensures Physical(pt, v) == pa + (v - addr)
      {
        assert v / PAGE_SIZE == addr / PAGE_SIZE;
      }
    }
  }

  lemma PhysicalInjective(pt: seq<TranslationEntry>, v: nat, w: nat)
    requires GoodTable(pt) && v < |pt| * PAGE_SIZE && w < |pt| * PAGE_SIZE && Physical(pt, v) == Physical(pt, w)
    ensures v == w
  {
    var i, j := v / PAGE_SIZE, w / PAGE_SIZE;
    assert pt[i].physicalPage == pt[j].physicalPage;
    assert i == j;
  }

  /** A read returns the little-endian value at that address of the flat memory. */
  lemma ReadIsFlat(mem: seq<byte>, pt: seq<TranslationEntry>, addr: int32, size: int)
    requires |mem| == MEMORY_SIZE && GoodTable(pt) && AccessSize(size) && Aligned(addr, size)
             && 0 <= addr < |pt| * PAGE_SIZE
    ensures addr + size <= |pt| * PAGE_SIZE
    ensures var pa := Translation(pt, addr, size, false).1;
            0 <= pa <= pa + size <= MEMORY_SIZE && mem[pa..pa + size] == Flat(mem, pt)[addr..addr + size]
  {
    hide Translation;
    TranslationIsFlat(pt, addr, size, false);
    var pa := Translation(pt, addr, size, false).1;
    var f := Flat(mem, pt)[addr..addr + size];
    forall k | 0 <= k < size
      ensures f[k] == mem[pa + k]
    {
      assert Physical(pt, addr + k) == pa + k;
    }
  }

  /** A write replaces exactly the bytes addressed in the flat memory. */
  lemma WriteIsFlat(mem: seq<byte>, pt: seq<TranslationEntry>, addr: int32, value: int32, size: int)
    requires |mem| == MEMORY_SIZE && GoodTable(pt) && AccessSize(size) && Aligned(addr, size)
             && 0 <= addr < |pt| * PAGE_SIZE
    ensures addr + size <= |pt| * PAGE_SIZE
    ensures var pa := Translation(pt, addr, size, true).1;
            && 0 <= pa && pa + size <= MEMORY_SIZE
            && Flat(Replaced(mem, pa, ToBytes(value, size)), pt) == Replaced(Flat(mem, pt), addr, ToBytes(value, size))
  {
    hide Translation, ToBytes;
    TranslationIsFlat(pt, addr, size, true);
    var pa := Translation(pt, addr, size, true).1;
    var b := ToBytes(value, size);
    var mem' := Replaced(mem, pa, b);
    forall v | 0 <= v < |pt| * PAGE_SIZE
      ensures Flat(mem', pt)[v] == Replaced(Flat(mem, pt), addr, b)[v]
    {
      FlatWriteByte(pt, addr, size, pa, v);
    }
  }

  lemma FlatWriteByte(pt: seq<TranslationEntry>, addr: nat, size: int, pa: int, v: nat)
    requires GoodTable(pt) && addr + size <= |pt| * PAGE_SIZE && v < |pt| * PAGE_SIZE
    requires forall w :: addr <= w < addr + size ==> Physical(pt, w) == pa + (w - addr)
    ensures pa <= Physical(pt, v) < pa + size <==> addr <= v < addr + size
    ensures addr <= v < addr + size ==> Physical(pt, v) == pa + (v - addr)
  {
    hide Physical;
    if pa <= Physical(pt, v) < pa + size {
      var k := Physical(pt, v) - pa;
      assert Physical(pt, addr + k) == pa + k;
      PhysicalInjective(pt, v, addr + k);
    }
  }

  /** The use and dirty bits do not change what a table maps. */
  lemma TouchedMapsTheSame(mem: seq<byte>, pt: seq<TranslationEntry>, addr: int32, size: int, writing: bool)
    requires |mem| == MEMORY_SIZE && GoodTable(pt) && AccessSize(size)
    ensures GoodTable(Touched(pt, addr, size, writing))
    ensures Flat(mem, Touched(pt, addr, size, writing)) == Flat(mem, pt)
  {
  }

  lemma LowBytes(u: uint32)
    ensures u % 256 + 0x100 * (u / 0x100 % 256) == u % 0x1_0000
  {
    var q, l := u / 0x100, u % 0x100;
    var h, m := q / 0x100, q % 0x100;
    assert u == 0x100 * q + l && q == 0x100 * h + m;
    LowHalf(u, h, 0x100 * m + l);
  }

  lemma LowHalf(u: int, h: int, low: int)
    requires u == 0x1_0000 * h + low && 0 <= low < 0x1_0000
    ensures u % 0x1_0000 == low
  {
  }

  lemma UnsignedLow(value: int32)
    ensures Unsigned(value) % 0x1_0000 == value % 0x1_0000
    ensures Unsigned(value) % 256 == value % 256
  {
  }

  /** Writing a word and reading it back gives the word. */
  lemma WordRoundTrip(value: int32)
    ensures FromBytes(ToBytes(value, 4)) == value
  {
    var u := Unsigned(value);
    LeRoundTrip(u);
    assert Le(u)[..4] == Le(u);
  }

  /** A halfword comes back zero-extended, a byte sign-extended. */
  lemma LowPartRoundTrip(value: int32)
    ensures FromBytes(ToBytes(value, 2)) == value % 0x1_0000
    ensures FromBytes(ToBytes(value, 1)) == SignedChar(value % 256)
  {
    LowBytes(Unsigned(value));
    UnsignedLow(value);
  }
}

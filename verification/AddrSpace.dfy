/** AddrSpace: allocating frames for a program, loading its segments page by page, and giving the frames back. */
module AddrSpaces {
  import opened Bytes
  import opened BitMaps
  import opened Memory

  const USER_STACK_SIZE := 1024
  const NOFF_MAGIC := 0xbadfad
  const NOFF_HEADER_SIZE := 40

  datatype Segment = Segment(virtualAddr: int32, inFileAddr: int32, size: int32)

  datatype NoffHeader = NoffHeader(magic: int32, code: Segment, initData: Segment, uninitData: Segment)

  /** The object file's header, as it lies in the file. */
  function Noff(exe: seq<byte>): NoffHeader
    requires |exe| >= NOFF_HEADER_SIZE
  {
    NoffHeader(Signed(WordAt(exe, 0)), SegmentAt(exe, 1), SegmentAt(exe, 4), SegmentAt(exe, 7))
  }

  function SegmentAt(exe: seq<byte>, w: nat): Segment
    requires |exe| >= 4 * (w + 3)
  {
    Segment(Signed(WordAt(exe, w)), Signed(WordAt(exe, w + 1)), Signed(WordAt(exe, w + 2)))
  }

  function NumPages(h: NoffHeader): int {
    var size := h.code.size + h.initData.size + h.uninitData.size + USER_STACK_SIZE;
    size / PAGE_SIZE + if size % PAGE_SIZE > 0 then 1 else 0
  }

  /** An address space is the fewest pages that hold the three segments and a stack of 1024 bytes. */
  lemma NumPagesIs(h: NoffHeader)
    requires h.code.size >= 0 && h.initData.size >= 0 && h.uninitData.size >= 0
    ensures var size := h.code.size + h.initData.size + h.uninitData.size + 1024;
            size <= NumPages(h) * 128 < size + 128
  {
  }

  /** The ten words with which an object file begins, in the order of the header's declaration. */
  function NoffBytes(h: NoffHeader): (b: seq<byte>)
    ensures |b| == NOFF_HEADER_SIZE
  {
    Words([Unsigned(h.magic),
           Unsigned(h.code.virtualAddr), Unsigned(h.code.inFileAddr), Unsigned(h.code.size),
           Unsigned(h.initData.virtualAddr), Unsigned(h.initData.inFileAddr), Unsigned(h.initData.size),
           Unsigned(h.uninitData.virtualAddr), Unsigned(h.uninitData.inFileAddr), Unsigned(h.uninitData.size)])
  }

  /** The header is read as it was written, whatever follows it in the file. */
  lemma NoffRoundTrip(h: NoffHeader, rest: seq<byte>)
    ensures Noff(NoffBytes(h) + rest) == h
  {
    var exe := NoffBytes(h) + rest;
    forall i: nat | i < 10
      ensures WordAt(exe, i) == WordAt(NoffBytes(h), i)
    {
      assert exe[4 * i..4 * i + 4] == NoffBytes(h)[4 * i..4 * i + 4];
    }
    var ws := [Unsigned(h.magic),
               Unsigned(h.code.virtualAddr), Unsigned(h.code.inFileAddr), Unsigned(h.code.size),
               Unsigned(h.initData.virtualAddr), Unsigned(h.initData.inFileAddr), Unsigned(h.initData.size),
               Unsigned(h.uninitData.virtualAddr), Unsigned(h.uninitData.inFileAddr), Unsigned(h.uninitData.size)];
    forall i: nat | i < 10
      ensures WordAt(exe, i) == ws[i]
    {
      WordsRoundTrip(ws, i);
    }
    forall n: int32
      ensures Signed(Unsigned(n)) == n
    {
      SameBits(n, 0);
    }
  }

  /** A loaded segment lies in the address space and in the file. */
  predicate Fits(seg: Segment, exe: seq<byte>, pages: int) {
    seg.size > 0 ==>
      && 0 <= seg.virtualAddr && seg.virtualAddr + seg.size <= pages * PAGE_SIZE
      && 0 <= seg.inFileAddr && seg.inFileAddr + seg.size <= |exe|
  }

  predicate Loadable(exe: seq<byte>) {
    && |exe| >= NOFF_HEADER_SIZE
    && var h := Noff(exe);
       && h.magic == NOFF_MAGIC
       && h.code.size >= 0 && h.initData.size >= 0 && h.uninitData.size >= 0
       && Fits(h.code, exe, NumPages(h)) && Fits(h.initData, exe, NumPages(h))
  }

  predicate InSegment(seg: Segment, v: int) {
    seg.virtualAddr <= v < seg.virtualAddr + seg.size
  }

  /** What virtual byte v of a freshly loaded program holds: data over code over zeroes. */
  function ImageByte(exe: seq<byte>, v: nat): byte
    requires Loadable(exe)
  {
    var h := Noff(exe);
    if InSegment(h.initData, v) then exe[h.initData.inFileAddr + v - h.initData.virtualAddr]
    else if InSegment(h.code, v) then exe[h.code.inFileAddr + v - h.code.virtualAddr]
    else 0
  }

  /** Byte k of each segment is byte k of its part of the file, the data winning over the code where they
      overlap, and every byte outside both is zero. */
  lemma ImageIsSegments(exe: seq<byte>, k: nat, v: nat)
    requires Loadable(exe)
    ensures var h := Noff(exe);
            && (k < h.initData.size ==>
                  ImageByte(exe, h.initData.virtualAddr + k) == exe[h.initData.inFileAddr + k])
            && (k < h.code.size && !(0 <= h.code.virtualAddr + k - h.initData.virtualAddr < h.initData.size) ==>
                  ImageByte(exe, h.code.virtualAddr + k) == exe[h.code.inFileAddr + k])
            && (!(0 <= v - h.code.virtualAddr < h.code.size) && !(0 <= v - h.initData.virtualAddr < h.initData.size) ==>
                  ImageByte(exe, v) == 0)
  {
  }

  /** The frames of a page table, in page order. */
  function Frames(pt: seq<TranslationEntry>): (f: seq<int32>)
    ensures |f| == |pt|
  {
    seq(|pt|, i requires 0 <= i < |pt| => pt[i].physicalPage)
  }

  /** No byte outside these frames differs. */
  ghost predicate OutsideSame(mem: seq<byte>, mem': seq<byte>, frames: seq<int32>) {
    |mem| == |mem'| == MEMORY_SIZE
    && forall k :: 0 <= k < MEMORY_SIZE && k / PAGE_SIZE !in frames ==> mem'[k] == mem[k]
  }

  /** The entry set up for page i on a frame. */
  function FreshEntry(i: int32, frame: int32): TranslationEntry {
    TranslationEntry(i, frame, true, false, false, false)
  }

  class AddrSpace {
    const numPages: nat
    const pageTable: array<TranslationEntry>

    /** Loads the program in `exe` into the lowest free frames. */
    constructor (m: Machine, frames: BitMap, exe: seq<byte>)
      requires m.Valid() && frames.Valid() && frames.numBits == NUM_PHYS_PAGES
      requires Loadable(exe) && NumPages(Noff(exe)) <= |Clear(frames.Bits())|
      modifies frames.words, m.mainMemory
      ensures fresh(pageTable) && pageTable.Length == numPages == NumPages(Noff(exe)) && GoodTable(pageTable[..])
      ensures var h := Noff(exe);
              var size := h.code.size + h.initData.size + h.uninitData.size + 1024;
              size <= numPages * 128 < size + 128
      ensures Taken(old(frames.Bits()), Frames(pageTable[..]), frames.Bits())
      ensures forall v :: 0 <= v < numPages * PAGE_SIZE ==>
                Flat(m.mainMemory[..], pageTable[..])[v] == ImageByte(exe, v)
      ensures OutsideSame(old(m.mainMemory[..]), m.mainMemory[..], Frames(pageTable[..]))
    {
      hide BitsOf, Flat, Taken, OutsideSame, Noff;
      ghost var mem := m.mainMemory[..];
      var h := Noff(exe);
      NumPagesIs(h);
      var pt := AllocatePages(m, frames, NumPages(h));
      ghost var zeroed := m.mainMemory[..];
      LoadSegment(m, pt, h.code, exe);
      ghost var coded := m.mainMemory[..];
      LoadSegment(m, pt, h.initData, exe);
      OutsideTwice(mem, zeroed, coded, Frames(pt[..]));
      OutsideTwice(mem, coded, m.mainMemory[..], Frames(pt[..]));
      numPages := pt.Length;
      pageTable := pt;
    }

    /** Releases every frame of the space. */
    method Free(frames: BitMap)
      requires pageTable.Length == numPages && GoodTable(pageTable[..]) && frames.Valid()
               && frames.numBits == NUM_PHYS_PAGES
      modifies frames.words
      ensures forall f :: 0 <= f < NUM_PHYS_PAGES ==>
                (frames.Bits()[f] <==> old(frames.Bits())[f] && f !in Frames(old(pageTable[..])))
    {
      hide BitsOf;
      var fs := Frames(pageTable[..]);
      for i := 0 to numPages
        invariant forall f :: 0 <= f < NUM_PHYS_PAGES ==>
                    (frames.Bits()[f] <==> old(frames.Bits())[f] && f !in fs[..i])
      {
        frames.ClearBit(fs[i]);
        assert fs[..i + 1] == fs[..i] + [fs[i]];
      }
      assert fs[..numPages] == fs;
    }
  }

  lemma OutsideTwice(a: seq<byte>, b: seq<byte>, c: seq<byte>, frames: seq<int32>)
    requires OutsideSame(a, b, frames) && OutsideSame(b, c, frames)
    ensures OutsideSame(a, c, frames)
  {
  }

  // Allocation.

  /** Gives each page a free frame and zeroes it. */
  method AllocatePages(m: Machine, frames: BitMap, numPages: nat) returns (pt: array<TranslationEntry>)
    requires m.Valid() && frames.Valid() && frames.numBits == NUM_PHYS_PAGES
    requires numPages <= |Clear(frames.Bits())|
    modifies frames.words, m.mainMemory
    ensures fresh(pt) && pt.Length == numPages && GoodTable(pt[..])
    ensures Taken(old(frames.Bits()), Frames(pt[..]), frames.Bits())
    ensures forall v :: 0 <= v < numPages * PAGE_SIZE ==> Flat(m.mainMemory[..], pt[..])[v] == 0
    ensures OutsideSame(old(m.mainMemory[..]), m.mainMemory[..], Frames(pt[..]))
  {
    hide BitsOf, Clear, FirstFit, Taken, ZeroedIn, GoodTable, Flat, OutsideSame;
    ghost var before := frames.Bits();
    ghost var mem := m.mainMemory[..];
    ClearFits(before);
    ZeroedNone(mem);
    pt := new TranslationEntry[numPages](i => FreshEntry(0, 0));
    NothingTaken(before, Frames(pt[..0]));
    assert Frames(pt[..0]) == [];
    for i := 0 to numPages
      invariant |Clear(frames.Bits())| == |Clear(before)| - i
      invariant Taken(before, Frames(pt[..i]), frames.Bits()) && FirstFit(Frames(pt[..i]), frames.Bits())
      invariant Plain(pt[..i])
      invariant ZeroedIn(mem, m.mainMemory[..], Frames(pt[..i]))
    {
      ghost var mid := frames.Bits();
      ghost var fs := Frames(pt[..i]);
      var frame := frames.Find();
      NoneClear(mid);
      MarkTakesOne(mid, frame);
      TakeOneMore(before, fs, mid, frame);
      pt[i] := FreshEntry(i, frame);
      assert pt[..i + 1] == pt[..i] + [FreshEntry(i, frame)];
      assert Frames(pt[..i + 1]) == fs + [frame];
      ghost var current := m.mainMemory[..];
      ZeroFrame(m.mainMemory, frame);
      ZeroedOneMore(mem, current, fs, frame, m.mainMemory[..]);
    }
    assert pt[..numPages] == pt[..];
    PlainIsGood(before, pt[..], frames.Bits());
    ZeroedIsFlat(mem, m.mainMemory[..], pt[..]);
  }

  method ZeroFrame(mem: array<byte>, frame: nat)
    requires mem.Length == MEMORY_SIZE && frame < NUM_PHYS_PAGES
    modifies mem
    ensures forall k :: 0 <= k < MEMORY_SIZE ==> mem[k] == if k / PAGE_SIZE == frame then 0 else old(mem[k])
  {
    forall k | frame * PAGE_SIZE <= k < (frame + 1) * PAGE_SIZE {
      mem[k] := 0;
    }
  }

  ghost predicate Plain(pt: seq<TranslationEntry>) {
    forall i :: 0 <= i < |pt| ==> pt[i].valid && !pt[i].readOnly
  }

  /** These frames are zero and no other byte differs. */
  ghost predicate ZeroedIn(mem: seq<byte>, mem': seq<byte>, frames: seq<int32>) {
    |mem| == |mem'| == MEMORY_SIZE
    && forall k :: 0 <= k < MEMORY_SIZE ==> mem'[k] == if k / PAGE_SIZE in frames then 0 else mem[k]
  }

  lemma ZeroedNone(mem: seq<byte>)
    requires |mem| == MEMORY_SIZE
    ensures ZeroedIn(mem, mem, [])
  {
  }

  lemma ZeroedOneMore(mem: seq<byte>, mid: seq<byte>, fs: seq<int32>, frame: int32, mem': seq<byte>)
    requires ZeroedIn(mem, mid, fs) && |mem'| == MEMORY_SIZE
    requires forall k :: 0 <= k < MEMORY_SIZE ==> mem'[k] == if k / PAGE_SIZE == frame then 0 else mid[k]
    ensures ZeroedIn(mem, mem', fs + [frame])
  {
  }

  lemma ClearFits(bits: seq<bool>)
    ensures |Clear(bits)| <= |bits|
  {
    ClearPlusMarked(bits);
  }

  lemma PlainIsGood(before: seq<bool>, pt: seq<TranslationEntry>, after: seq<bool>)
    requires |before| == NUM_PHYS_PAGES && |pt| <= NUM_PHYS_PAGES && Plain(pt) && Taken(before, Frames(pt), after)
    ensures GoodTable(pt)
  {
    forall i | 0 <= i < |pt|
      ensures 0 <= pt[i].physicalPage < NUM_PHYS_PAGES
    {
      assert Frames(pt)[i] == pt[i].physicalPage;
    }
    forall i, j | 0 <= i < j < |pt|
      ensures pt[i].physicalPage != pt[j].physicalPage
    {
      assert Frames(pt)[i] < Frames(pt)[j];
    }
  }

  lemma ZeroedIsFlat(mem: seq<byte>, mem': seq<byte>, pt: seq<TranslationEntry>)
    requires GoodTable(pt) && ZeroedIn(mem, mem', Frames(pt))
    ensures forall v :: 0 <= v < |pt| * PAGE_SIZE ==> Flat(mem', pt)[v] == 0
    ensures OutsideSame(mem, mem', Frames(pt))
  {
    forall v | 0 <= v < |pt| * PAGE_SIZE
      ensures Flat(mem', pt)[v] == 0
    {
      assert Frames(pt)[v / PAGE_SIZE] in Frames(pt);
    }
  }

  // Loading.

  /** The part of a segment that has been read in while page i is next. */
  predicate ReadIn(seg: Segment, lastRead: bool, i: int, v: int) {
    InSegment(seg, v)
    && var first := seg.virtualAddr / PAGE_SIZE;
       var last := (seg.virtualAddr + seg.size) / PAGE_SIZE;
       v / PAGE_SIZE == first || (lastRead && v / PAGE_SIZE == last) || first < v / PAGE_SIZE < i
  }

  /** The flat memory holds the segment's file bytes where they have been read in and is otherwise unchanged. */
  ghost predicate Partly(flat: seq<byte>, flat': seq<byte>, seg: Segment, exe: seq<byte>, lastRead: bool, i: int)
    requires seg.size > 0 && seg.inFileAddr >= 0 && seg.inFileAddr + seg.size <= |exe|
  {
    |flat'| == |flat|
    && forall v :: 0 <= v < |flat| ==>
                     flat'[v] == if ReadIn(seg, lastRead, i, v)
                                 then exe[seg.inFileAddr + v - seg.virtualAddr]
                                 else flat[v]
  }

  /** Reads a segment into its pages: the first, then a partial last one, then those between. */
  method LoadSegment(m: Machine, pt: array<TranslationEntry>, seg: Segment, exe: seq<byte>)
    requires m.Valid() && GoodTable(pt[..]) && seg.size >= 0 && Fits(seg, exe, pt.Length)
    modifies m.mainMemory
    ensures OutsideSame(old(m.mainMemory[..]), m.mainMemory[..], Frames(pt[..]))
    ensures forall v :: 0 <= v < pt.Length * PAGE_SIZE ==>
              Flat(m.mainMemory[..], pt[..])[v] ==
              if InSegment(seg, v)
              then exe[seg.inFileAddr + v - seg.virtualAddr]
              else old(Flat(m.mainMemory[..], pt[..]))[v]
  {
    hide Flat, GoodTable, Partly, OutsideSame, Replaced, Frames;
    if seg.size <= 0 {
      SameOutside(m.mainMemory[..], Frames(pt[..]));
      return;
    }
    ghost var mem, flat := m.mainMemory[..], Flat(m.mainMemory[..], pt[..]);
    var inFileAddr := seg.inFileAddr;
    var firstPage := seg.virtualAddr / PAGE_SIZE;
    var tempPageSize := PAGE_SIZE - seg.virtualAddr % PAGE_SIZE;
    var firstPageSize, lastPage, lastPageSize;
    if tempPageSize < seg.size {
      firstPageSize := tempPageSize;
      lastPage := (seg.virtualAddr + seg.size) / PAGE_SIZE;
      lastPageSize := (seg.virtualAddr + seg.size) % PAGE_SIZE;
    } else {
      firstPageSize := seg.size;
      lastPage := firstPage + 1;
      lastPageSize := 0;
    }
    ReadPage(m, pt, firstPage, PAGE_SIZE - tempPageSize, firstPageSize, exe, inFileAddr);
    FirstRead(flat, Flat(m.mainMemory[..], pt[..]), seg, exe, firstPageSize);
    if lastPageSize != 0 {
      ghost var flat1, mem1 := Flat(m.mainMemory[..], pt[..]), m.mainMemory[..];
      ReadPage(m, pt, lastPage, 0, lastPageSize, exe,
               inFileAddr + firstPageSize + (lastPage - firstPage - 1) * PAGE_SIZE);
      LastRead(flat, flat1, Flat(m.mainMemory[..], pt[..]), seg, exe);
      OutsideTwice(mem, mem1, m.mainMemory[..], Frames(pt[..]));
    }
    ghost var mem2 := m.mainMemory[..];
    if tempPageSize < seg.size {
      ReadMiddle(m, pt, seg, exe, lastPageSize != 0, flat);
      OutsideTwice(mem, mem2, m.mainMemory[..], Frames(pt[..]));
    }
    AllRead(flat, Flat(m.mainMemory[..], pt[..]), seg, exe, lastPageSize != 0, lastPage);
  }

  /** The loop over the pages strictly between the first and the last. */
  method ReadMiddle(m: Machine, pt: array<TranslationEntry>, seg: Segment, exe: seq<byte>, ghost lastRead: bool,
                    ghost flat: seq<byte>)
    requires m.Valid() && GoodTable(pt[..]) && seg.size > 0 && Fits(seg, exe, pt.Length)
             && |flat| == pt.Length * PAGE_SIZE
    requires PAGE_SIZE - seg.virtualAddr % PAGE_SIZE < seg.size
    requires Partly(flat, Flat(m.mainMemory[..], pt[..]), seg, exe, lastRead, seg.virtualAddr / PAGE_SIZE + 1)
    modifies m.mainMemory
    ensures OutsideSame(old(m.mainMemory[..]), m.mainMemory[..], Frames(pt[..]))
    ensures Partly(flat, Flat(m.mainMemory[..], pt[..]), seg, exe, lastRead, (seg.virtualAddr + seg.size) / PAGE_SIZE)
  {
    hide Flat, GoodTable, Partly, OutsideSame, Replaced, Frames;
    ghost var mem := m.mainMemory[..];
    SameOutside(mem, Frames(pt[..]));
    var firstPage := seg.virtualAddr / PAGE_SIZE;
    var firstPageSize := PAGE_SIZE - seg.virtualAddr % PAGE_SIZE;
    for i := firstPage + 1 to (seg.virtualAddr + seg.size) / PAGE_SIZE
      invariant OutsideSame(mem, m.mainMemory[..], Frames(pt[..]))
      invariant Partly(flat, Flat(m.mainMemory[..], pt[..]), seg, exe, lastRead, i)
    {
      ghost var flat1, mem1 := Flat(m.mainMemory[..], pt[..]), m.mainMemory[..];
      ReadPage(m, pt, i, 0, PAGE_SIZE, exe, seg.inFileAddr + firstPageSize + (i - firstPage - 1) * PAGE_SIZE);
      MiddleRead(flat, flat1, Flat(m.mainMemory[..], pt[..]), seg, exe, lastRead, i);
      OutsideTwice(mem, mem1, m.mainMemory[..], Frames(pt[..]));
    }
  }

  lemma SameOutside(mem: seq<byte>, frames: seq<int32>)
    requires |mem| == MEMORY_SIZE
    ensures OutsideSame(mem, mem, frames)
  {
  }

  /** executable->ReadAt into part of one page. */
  method ReadPage(m: Machine, pt: array<TranslationEntry>, page: nat, offset: nat, n: nat, exe: seq<byte>, pos: nat)
    requires m.Valid() && GoodTable(pt[..]) && page < pt.Length && offset + n <= PAGE_SIZE && pos + n <= |exe|
    modifies m.mainMemory
    ensures OutsideSame(old(m.mainMemory[..]), m.mainMemory[..], Frames(pt[..]))
    ensures Flat(m.mainMemory[..], pt[..]) ==
            Replaced(old(Flat(m.mainMemory[..], pt[..])), page * PAGE_SIZE + offset, exe[pos..pos + n])
  {
    hide Flat, OutsideSame, Frames;
    ghost var mem, table := m.mainMemory[..], pt[..];
    var at := pt[page].physicalPage * PAGE_SIZE + offset;
    forall k | 0 <= k < n {
      m.mainMemory[at + k] := exe[pos + k];
    }
    assert m.mainMemory[..] == Replaced(mem, at, exe[pos..pos + n]);
    assert pt[..] == table;
    PageReplaced(mem, table, page, offset, exe[pos..pos + n]);
  }

  lemma PageReplaced(mem: seq<byte>, pt: seq<TranslationEntry>, page: nat, offset: nat, b: seq<byte>)
    requires |mem| == MEMORY_SIZE && GoodTable(pt) && page < |pt| && offset + |b| <= PAGE_SIZE
    ensures var at := pt[page].physicalPage * PAGE_SIZE + offset;
            && Flat(Replaced(mem, at, b), pt) == Replaced(Flat(mem, pt), page * PAGE_SIZE + offset, b)
            && OutsideSame(mem, Replaced(mem, at, b), Frames(pt))
  {
    hide Physical, Frames;
    var at := pt[page].physicalPage * PAGE_SIZE + offset;
    var start := page * PAGE_SIZE + offset;
    PagePhysical(pt, page, offset, |b|);
    forall v | 0 <= v < |pt| * PAGE_SIZE
      ensures Flat(Replaced(mem, at, b), pt)[v] == Replaced(Flat(mem, pt), start, b)[v]
    {
      FlatWriteByte(pt, start, |b|, at, v);
    }
    PageOutside(mem, pt, page, offset, b);
  }

  lemma PagePhysical(pt: seq<TranslationEntry>, page: nat, offset: nat, n: nat)
    requires GoodTable(pt) && page < |pt| && offset + n <= PAGE_SIZE
    ensures forall w :: page * PAGE_SIZE + offset <= w < page * PAGE_SIZE + offset + n ==>
                          Physical(pt, w)
                          == pt[page].physicalPage * PAGE_SIZE + offset + (w - (page * PAGE_SIZE + offset))
  {
  }

  lemma PageOutside(mem: seq<byte>, pt: seq<TranslationEntry>, page: nat, offset: nat, b: seq<byte>)
    requires |mem| == MEMORY_SIZE && GoodTable(pt) && page < |pt| && offset + |b| <= PAGE_SIZE
    ensures OutsideSame(mem, Replaced(mem, pt[page].physicalPage * PAGE_SIZE + offset, b), Frames(pt))
  {
    assert Frames(pt)[page] in Frames(pt);
  }

  lemma FirstRead(flat: seq<byte>, flat': seq<byte>, seg: Segment, exe: seq<byte>, n: int)
    requires seg.size > 0 && Fits(seg, exe, |flat| / PAGE_SIZE) && |flat| % PAGE_SIZE == 0
    requires n == if PAGE_SIZE - seg.virtualAddr % PAGE_SIZE < seg.size
                  then PAGE_SIZE - seg.virtualAddr % PAGE_SIZE
                  else seg.size
    requires flat' == Replaced(flat, seg.virtualAddr, exe[seg.inFileAddr..seg.inFileAddr + n])
    ensures Partly(flat, flat', seg, exe, false, seg.virtualAddr / PAGE_SIZE + 1)
  {
  }

  lemma LastRead(flat: seq<byte>, flat1: seq<byte>, flat': seq<byte>, seg: Segment, exe: seq<byte>)
    requires seg.size > 0 && Fits(seg, exe, |flat| / PAGE_SIZE) && |flat| % PAGE_SIZE == 0
    requires PAGE_SIZE - seg.virtualAddr % PAGE_SIZE < seg.size
    requires Partly(flat, flat1, seg, exe, false, seg.virtualAddr / PAGE_SIZE + 1)
    requires var last := (seg.virtualAddr + seg.size) / PAGE_SIZE;
             var n := (seg.virtualAddr + seg.size) % PAGE_SIZE;
             var pos := seg.inFileAddr + last * PAGE_SIZE - seg.virtualAddr;
             last * PAGE_SIZE + n <= |flat| && 0 <= pos && pos + n <= |exe|
             && flat' == Replaced(flat1, last * PAGE_SIZE, exe[pos..pos + n])
    ensures Partly(flat, flat', seg, exe, true, seg.virtualAddr / PAGE_SIZE + 1)
  {
  }

  lemma MiddleRead(flat: seq<byte>, flat1: seq<byte>, flat': seq<byte>, seg: Segment, exe: seq<byte>,
                   lastRead: bool, i: int)
    requires seg.size > 0 && Fits(seg, exe, |flat| / PAGE_SIZE) && |flat| % PAGE_SIZE == 0
    requires seg.virtualAddr / PAGE_SIZE < i < (seg.virtualAddr + seg.size) / PAGE_SIZE
    requires Partly(flat, flat1, seg, exe, lastRead, i)
    requires var pos := seg.inFileAddr + i * PAGE_SIZE - seg.virtualAddr;
             i * PAGE_SIZE + PAGE_SIZE <= |flat| && 0 <= pos && pos + PAGE_SIZE <= |exe|
             && flat' == Replaced(flat1, i * PAGE_SIZE, exe[pos..pos + PAGE_SIZE])
    ensures Partly(flat, flat', seg, exe, lastRead, i + 1)
  {
  }

  lemma AllRead(flat: seq<byte>, flat': seq<byte>, seg: Segment, exe: seq<byte>, lastRead: bool, i: int)
    requires seg.size > 0 && Fits(seg, exe, |flat| / PAGE_SIZE) && Partly(flat, flat', seg, exe, lastRead, i)
    requires if PAGE_SIZE - seg.virtualAddr % PAGE_SIZE < seg.size
             then i == (seg.virtualAddr + seg.size) / PAGE_SIZE
                  && lastRead == ((seg.virtualAddr + seg.size) % PAGE_SIZE != 0)
             else !lastRead && i == seg.virtualAddr / PAGE_SIZE + 1
    ensures forall v :: 0 <= v < |flat| ==>
              flat'[v] == if InSegment(seg, v) then exe[seg.inFileAddr + v - seg.virtualAddr] else flat[v]
  {
    forall v | 0 <= v < |flat| && InSegment(seg, v)
      ensures ReadIn(seg, lastRead, i, v)
    {
    }
  }
}

/** OpenFile: byte-range access to a file laid out over whole sectors. */
module OpenFiles {
  import opened Bytes
  import opened Sectors
  import opened FileHeaders

  /** Byte k of the file that h describes. */
  function FileByte(d: Image, h: Header, k: nat): byte
    requires Good(h) && k < h.numSectors * SECTOR_SIZE
  {
    d[h.dataSectors[k / SECTOR_SIZE]][k % SECTOR_SIZE]
  }

  /** The file's contents: `numBytes` bytes, whatever follows them in the last sector. */
  function Contents(d: Image, h: Header): (c: seq<byte>)
    requires Good(h)
    ensures |c| == h.numBytes
  {
    seq(h.numBytes, k requires 0 <= k < h.numBytes => FileByte(d, h, k))
  }

  /** How many bytes a request for n bytes at pos transfers. */
  function Clamp(length: nat, n: int, pos: nat): (m: nat)
    ensures m > 0 ==> m <= n && pos + m <= length
  {
    if n <= 0 || pos >= length then 0
    else if pos + n > length then length - pos
    else n
  }

  /** It is the most that the request asks for and the file holds. */
  lemma ClampIsMost(length: nat, n: int, pos: nat, m: nat)
    requires m <= n && pos + m <= length
    ensures m <= Clamp(length, n, pos)
  {
  }

  /** `old` with the bytes from pos on replaced by `data`. */
  function Splice(old': seq<byte>, pos: nat, data: seq<byte>): (r: seq<byte>)
    requires data != [] ==> pos + |data| <= |old'|
    ensures |r| == |old'|
  {
    if data == [] then old' else old'[..pos] + data + old'[pos + |data|..]
  }

  /** Each byte of a splice comes from the data inside the range written and from the old bytes outside. */
  lemma SpliceByte(old': seq<byte>, pos: nat, data: seq<byte>, k: nat)
    requires (data != [] ==> pos + |data| <= |old'|) && k < |old'|
    ensures Splice(old', pos, data)[k] == if pos <= k < pos + |data| then data[k - pos] else old'[k]
  {
  }

  /** Sector j of a file is one that a write of `n` bytes at pos reaches. */
  predicate Reached(pos: nat, n: nat, j: int) {
    n > 0 && pos / SECTOR_SIZE <= j <= (pos + n - 1) / SECTOR_SIZE
  }

  /** What a write at pos does to the disk: the file's bytes are spliced, and no sector changes but
      those of the file that it reaches. Bytes past the end of the file in such a sector are unconstrained. */
  ghost predicate Written(d: Image, d': Image, h: Header, pos: nat, data: seq<byte>)
    requires Good(h) && (data != [] ==> pos + |data| <= h.numBytes)
  {
    && Contents(d', h) == Splice(Contents(d, h), pos, data)
    && (forall s :: 0 <= s < NUM_SECTORS && s !in Data(h) ==> d'[s] == d[s])
    && (forall j :: 0 <= j < h.numSectors && !Reached(pos, |data|, j) ==> d'[h.dataSectors[j]] == d[h.dataSectors[j]])
  }

  /** Bytes past the end of the file survive every write that does not reach its last sector. */
  lemma SlackKept(d: Image, d': Image, h: Header, pos: nat, data: seq<byte>, k: nat)
    requires Good(h) && (data != [] ==> pos + |data| <= h.numBytes) && Written(d, d', h, pos, data)
    requires h.numBytes <= k < h.numSectors * SECTOR_SIZE && !Reached(pos, |data|, h.numSectors - 1)
    ensures FileByte(d', h, k) == FileByte(d, h, k)
  {
    hide Contents, Splice, Reached;
    assert k / SECTOR_SIZE == h.numSectors - 1;
  }

  /** The size of the buffer that a write of `n` bytes at pos allocates: the sectors that it reaches. */
  function BufferSize(pos: nat, n: nat): (size: nat) {
    if n == 0 then 0 else (1 + (pos + n - 1) / SECTOR_SIZE - pos / SECTOR_SIZE) * SECTOR_SIZE
  }

  /** Byte k past the end of the file after a write: what the buffer held when it was allocated, if the
      write reaches the last sector, and otherwise what the disk held. */
  function SlackByte(d: Image, h: Header, pos: nat, n: nat, garbage: seq<byte>, k: nat): (b: byte)
    requires Good(h) && (n > 0 ==> pos + n <= h.numBytes) && |garbage| == BufferSize(pos, n)
    requires h.numBytes <= k < h.numSectors * SECTOR_SIZE
  {
    if Reached(pos, n, h.numSectors - 1) then garbage[k - pos / SECTOR_SIZE * SECTOR_SIZE] else FileByte(d, h, k)
  }

  /** A write, with every byte of the disk accounted for: `garbage` is the buffer as allocated. */
  ghost predicate WrittenOver(d: Image, d': Image, h: Header, pos: nat, data: seq<byte>, garbage: seq<byte>)
    requires Good(h) && (data != [] ==> pos + |data| <= h.numBytes)
  {
    && Written(d, d', h, pos, data)
    && |garbage| == BufferSize(pos, |data|)
    && (forall k :: h.numBytes <= k < h.numSectors * SECTOR_SIZE ==>
                      FileByte(d', h, k) == SlackByte(d, h, pos, |data|, garbage, k))
  }

  /**
   * A byte past the end of the file can be lost exactly when the write reaches the
   * last sector: then, and only then, some content of the fresh buffer changes it.
   */
  lemma SlackLostIff(d: Image, d0: Image, h: Header, pos: nat, data: seq<byte>, garbage0: seq<byte>, k: nat)
    requires Good(h) && (data != [] ==> pos + |data| <= h.numBytes) && WrittenOver(d, d0, h, pos, data, garbage0)
    requires h.numBytes <= k < h.numSectors * SECTOR_SIZE
    ensures Reached(pos, |data|, h.numSectors - 1)
            <==> exists d': Image, garbage: seq<byte> ::
                   WrittenOver(d, d', h, pos, data, garbage) && FileByte(d', h, k) != FileByte(d, h, k)
  {
    hide Contents, Splice;
    if Reached(pos, |data|, h.numSectors - 1) {
      var other: byte := if FileByte(d, h, k) == 0 then 1 else 0;
      var d', garbage := OtherSlack(d, d0, h, pos, data, garbage0, k, other);
    } else {
      forall d': Image | Written(d, d', h, pos, data)
        ensures FileByte(d', h, k) == FileByte(d, h, k)
      {
        SlackKept(d, d', h, pos, data, k);
      }
    }
  }

  /** The same write over a buffer that held another byte at that place. */
  lemma OtherSlack(d: Image, d0: Image, h: Header, pos: nat, data: seq<byte>, garbage0: seq<byte>, k: nat, other: byte)
    returns (d': Image, garbage: seq<byte>)
    requires Good(h) && (data != [] ==> pos + |data| <= h.numBytes) && WrittenOver(d, d0, h, pos, data, garbage0)
    requires h.numBytes <= k < h.numSectors * SECTOR_SIZE && Reached(pos, |data|, h.numSectors - 1)
    ensures WrittenOver(d, d', h, pos, data, garbage) && FileByte(d', h, k) == other
  {
    hide Splice;
    var last := h.numSectors - 1;
    var sector := h.dataSectors[last];
    assert k / SECTOR_SIZE == last && sector in Data(h);
    var changed: Sector := d0[sector][k % SECTOR_SIZE := other];
    d' := d0[sector := changed];
    garbage := garbage0[k - pos / SECTOR_SIZE * SECTOR_SIZE := other];
    forall j | 0 <= j < h.numSectors * SECTOR_SIZE
      ensures FileByte(d', h, j) == if j == k then other else FileByte(d0, h, j)
    {
    }
    assert Contents(d', h) == Contents(d0, h);
  }

  /** One byte written to a file of one byte: the byte after it becomes what the buffer held. */
  lemma SlackLost()
    ensures exists d: Image, d': Image, h: Header, garbage: seq<byte> ::
              Good(h) && h.numBytes == 1 && WrittenOver(d, d', h, 0, [7], garbage)
              && FileByte(d', h, 1) != FileByte(d, h, 1)
  {
    var h := Header(1, 1, seq(NUM_DIRECT, i => 5));
    var d: Image := seq<Sector>(1024, i => ZEROES);
    var garbage: seq<byte> := seq(SECTOR_SIZE, i => 1);
    var after: Sector := garbage[0 := 7];
    var d' := d[5 := after];
    assert Good(h) && h.dataSectors[0] == 5;
    assert forall k :: 0 <= k < SECTOR_SIZE ==> FileByte(d', h, k) == after[k] && FileByte(d, h, k) == 0;
    assert Contents(d', h) == [7] && Splice(Contents(d, h), 0, [7]) == [7];
    assert WrittenOver(d, d', h, 0, [7], garbage);
  }

  class OpenFile {
    const hdr: FileHeader
    var seekPosition: int

    /** Caches the header found at `sector`. */
    constructor (disk: SynchDisk, sector: int)
      requires 0 <= sector < NUM_SECTORS
      ensures fresh(hdr) && hdr.Value() == Decode(disk.image[sector]) && seekPosition == 0
    {
      var h := new FileHeader();
      h.FetchFrom(disk, sector);
      hdr := h;
      seekPosition := 0;
    }

    method Seek(position: int)
      modifies this
      ensures seekPosition == position
    {
      seekPosition := position;
    }

    /** Reads the sectors that hold the request and copies out the part asked for. */
    method ReadAt(disk: SynchDisk, into: array<byte>, at: nat, numBytes: int32, position: nat) returns (n: nat)
      requires Good(hdr.Value()) && position + numBytes < 0x8000_0000
      requires at + Clamp(hdr.numBytes, numBytes, position) <= into.Length
      modifies into
      ensures n == Clamp(hdr.numBytes, numBytes, position)
      ensures n > 0 ==> into[at..at + n] == Contents(disk.image, hdr.Value())[position..position + n]
      ensures forall k :: 0 <= k < into.Length && !(at <= k < at + n) ==> into[k] == old(into[k])
    {
      hide FileByte;
      var fileLength := hdr.numBytes;
      if numBytes <= 0 || position >= fileLength {
        return 0;
      }
      n := numBytes;
      if position + numBytes > fileLength {
        n := fileLength - position;
      }
      var firstSector := position / SECTOR_SIZE;
      var lastSector := (position + n - 1) / SECTOR_SIZE;
      var buf := ReadSectors(disk, firstSector, lastSector);
      forall k | 0 <= k < n {
        into[at + k] := buf[position - firstSector * SECTOR_SIZE + k];
      }
      ghost var c := Contents(disk.image, hdr.Value());
      ghost var got := into[at..at + n];
      forall k | 0 <= k < n
        ensures got[k] == c[position + k]
      {
      }
      assert into[at..at + n] == c[position..position + n];
    }

    /** The loop of ReadAt: a fresh buffer holding sectors first..last of the file. */
    method ReadSectors(disk: SynchDisk, first: nat, last: nat) returns (buf: array<byte>)
      requires Good(hdr.Value()) && first <= last < hdr.numSectors
      ensures fresh(buf) && buf.Length == (1 + last - first) * SECTOR_SIZE
      ensures forall k :: 0 <= k < buf.Length ==> buf[k] == FileByte(disk.image, hdr.Value(), first * SECTOR_SIZE + k)
    {
      buf := new byte[(1 + last - first) * SECTOR_SIZE];
      for i := first to last + 1
        invariant forall k :: 0 <= k < (i - first) * SECTOR_SIZE ==>
                                buf[k] == FileByte(disk.image, hdr.Value(), first * SECTOR_SIZE + k)
      {
        var at := (i - first) * SECTOR_SIZE;
        var sector := hdr.dataSectors[i * SECTOR_SIZE / SECTOR_SIZE];
        disk.ReadSector(sector, buf, at);
        forall k | at <= k < at + SECTOR_SIZE
          ensures buf[k] == FileByte(disk.image, hdr.Value(), first * SECTOR_SIZE + k)
        {
          assert buf[k] == buf[at..at + SECTOR_SIZE][k - at];
        }
      }
    }

    /** Patches the request into the sectors it covers and writes them all back. */
    method WriteAt(disk: SynchDisk, from: array<byte>, numBytes: int32, position: nat)
      returns (n: nat, ghost garbage: seq<byte>)
      requires Good(hdr.Value()) && position + numBytes < 0x8000_0000
      requires Clamp(hdr.numBytes, numBytes, position) <= from.Length
      modifies disk
      ensures n == Clamp(hdr.numBytes, numBytes, position)
      ensures WrittenOver(old(disk.image), disk.image, hdr.Value(), position, from[..n], garbage)
    {
      hide Staged, Flushed, FileByte, Splice, SlackByte;
      garbage := [];
      var fileLength := hdr.numBytes;
      if numBytes <= 0 || position >= fileLength {
        NothingWritten(disk.image, hdr.Value(), position);
        return 0, garbage;
      }
      n := numBytes;
      if position + numBytes > fileLength {
        n := fileLength - position;
      }
      var firstSector := position / SECTOR_SIZE;
      var lastSector := (position + n - 1) / SECTOR_SIZE;
      var buf;
      buf, garbage := Stage(disk, from, n, position, firstSector, lastSector);
      WriteSectors(disk, buf, firstSector, lastSector);
      StagedIsSpliced(old(disk.image), disk.image, hdr.Value(), position, from[..n], buf[..]);
      FlushedSlack(old(disk.image), disk.image, hdr.Value(), position, from[..n], buf[..], garbage);
    }

    /** The buffer WriteAt writes back: the partly covered end sectors read in, then the request copied over. */
    method Stage(disk: SynchDisk, from: array<byte>, n: nat, position: nat, first: nat, last: nat)
      returns (buf: array<byte>, ghost garbage: seq<byte>)
      requires Good(hdr.Value()) && 0 < n <= from.Length && position + n <= hdr.numBytes
      requires first == position / SECTOR_SIZE && last == (position + n - 1) / SECTOR_SIZE
      ensures fresh(buf) && buf.Length == (1 + last - first) * SECTOR_SIZE
      ensures Staged(disk.image, hdr.Value(), position, from[..n], buf[..])
      ensures SlackLeft(hdr.Value(), first, garbage, buf[..])
    {
      hide FileByte, Staged, HoldsSector;
      buf := new byte[(1 + last - first) * SECTOR_SIZE];
      garbage := buf[..];
      ReadEnds(disk, buf, n, position, first, last);
      ghost var readIn := buf[..];
      forall k | 0 <= k < n {
        buf[position - first * SECTOR_SIZE + k] := from[k];
      }
      Patched(disk.image, hdr.Value(), position, from[..n], readIn, buf[..]);
    }

    /** Reads in the first and the last sector if they are to be partially modified. */
    method ReadEnds(disk: SynchDisk, buf: array<byte>, n: nat, position: nat, first: nat, last: nat)
      requires Good(hdr.Value()) && 0 < n && position + n <= hdr.numBytes
      requires first == position / SECTOR_SIZE && last == (position + n - 1) / SECTOR_SIZE
      requires buf.Length == (1 + last - first) * SECTOR_SIZE
      modifies buf
      ensures position != first * SECTOR_SIZE ==> HoldsSector(disk.image, hdr.Value(), first, buf[..], 0)
      ensures position + n != (last + 1) * SECTOR_SIZE ==>
                HoldsSector(disk.image, hdr.Value(), last, buf[..], (last - first) * SECTOR_SIZE)
      ensures SlackLeft(hdr.Value(), first, old(buf[..]), buf[..])
    {
      hide FileByte;
      var firstAligned := position == first * SECTOR_SIZE;
      var lastAligned := position + n == (last + 1) * SECTOR_SIZE;
      if !firstAligned {
        ReadBack(disk, buf, first, 0);
      }
      if !lastAligned && (first != last || firstAligned) {
        ReadBack(disk, buf, last, (last - first) * SECTOR_SIZE);
      }
    }

    /** Brings one sector of the file into the buffer, as far as the file reaches. */
    method ReadBack(disk: SynchDisk, buf: array<byte>, i: nat, at: nat)
      requires Good(hdr.Value()) && i < hdr.numSectors && at + SECTOR_SIZE <= buf.Length
      modifies buf
      ensures HoldsSector(disk.image, hdr.Value(), i, buf[..], at)
      ensures forall k :: 0 <= k < buf.Length && !(at <= k < at + SECTOR_SIZE) ==> buf[k] == old(buf[k])
      ensures forall k :: at <= k < at + SECTOR_SIZE && hdr.numBytes <= i * SECTOR_SIZE + (k - at) ==>
                buf[k] == old(buf[k])
    {
      var m := ReadAt(disk, buf, at, SECTOR_SIZE, i * SECTOR_SIZE);
      ghost var c := Contents(disk.image, hdr.Value());
      forall k | i * SECTOR_SIZE <= k < (i + 1) * SECTOR_SIZE && k < hdr.numBytes
        ensures buf[at + k - i * SECTOR_SIZE] == FileByte(disk.image, hdr.Value(), k)
      {
        assert buf[at..at + m][k - i * SECTOR_SIZE] == c[i * SECTOR_SIZE..i * SECTOR_SIZE + m][k - i * SECTOR_SIZE];
      }
    }

    /** The final loop of WriteAt. */
    method WriteSectors(disk: SynchDisk, buf: array<byte>, first: nat, last: nat)
      requires Good(hdr.Value()) && first <= last < hdr.numSectors && buf.Length == (1 + last - first) * SECTOR_SIZE
      modifies disk
      ensures Flushed(old(disk.image), disk.image, hdr.Value(), first, last, buf[..])
    {
      for i := first to last + 1
        invariant forall j :: first <= j < i ==>
                                disk.image[hdr.dataSectors[j]]
                                == buf[(j - first) * SECTOR_SIZE..(j - first + 1) * SECTOR_SIZE]
        invariant forall s :: 0 <= s < NUM_SECTORS && (forall j :: first <= j < i ==> hdr.dataSectors[j] != s) ==>
                    disk.image[s] == old(disk.image)[s]
      {
        disk.WriteSector(hdr.dataSectors[i * SECTOR_SIZE / SECTOR_SIZE], buf, (i - first) * SECTOR_SIZE);
      }
    }

    /** Reads from the current position and advances it by the bytes transferred. */
    method Read(disk: SynchDisk, into: array<byte>, numBytes: int32) returns (n: nat)
      requires Good(hdr.Value()) && seekPosition >= 0 && seekPosition + numBytes < 0x8000_0000
      requires Clamp(hdr.numBytes, numBytes, seekPosition) <= into.Length
      modifies this, into
      ensures n == Clamp(hdr.numBytes, numBytes, old(seekPosition)) && seekPosition == old(seekPosition) + n
      ensures n > 0 ==> into[..n] == Contents(disk.image, hdr.Value())[old(seekPosition)..seekPosition]
    {
      n := ReadAt(disk, into, 0, numBytes, seekPosition);
      seekPosition := seekPosition + n;
      assert into[0..n] == into[..n];
    }

    /** Writes at the current position and advances it by the bytes transferred. */
    method Write(disk: SynchDisk, from: array<byte>, numBytes: int32) returns (n: nat)
      requires Good(hdr.Value()) && seekPosition >= 0 && seekPosition + numBytes < 0x8000_0000
      requires Clamp(hdr.numBytes, numBytes, seekPosition) <= from.Length
      modifies this, disk
      ensures n == Clamp(hdr.numBytes, numBytes, old(seekPosition)) && seekPosition == old(seekPosition) + n
      ensures Written(old(disk.image), disk.image, hdr.Value(), old(seekPosition), from[..n])
    {
      ghost var garbage;
      n, garbage := WriteAt(disk, from, numBytes, seekPosition);
      seekPosition := seekPosition + n;
    }
  }

  /** Byte k of the file once `data` is written at pos. */
  function SplicedByte(d: Image, h: Header, pos: nat, data: seq<byte>, k: nat): byte
    requires Good(h) && k < h.numSectors * SECTOR_SIZE
  {
    if pos <= k < pos + |data| then data[k - pos] else FileByte(d, h, k)
  }

  /** The write buffer agrees with the spliced file wherever it covers the file. */
  ghost predicate Staged(d: Image, h: Header, pos: nat, data: seq<byte>, buf: seq<byte>)
    requires Good(h) && data != [] && pos + |data| <= h.numBytes
  {
    var first := pos / SECTOR_SIZE;
    var last := (pos + |data| - 1) / SECTOR_SIZE;
    && |buf| == (1 + last - first) * SECTOR_SIZE
    && (forall j :: 0 <= j < |buf| && first * SECTOR_SIZE + j < h.numBytes ==>
                      buf[j] == SplicedByte(d, h, pos, data, first * SECTOR_SIZE + j))
  }

  /** Where the write buffer lies past the end of the file it holds what it held when it was allocated. */
  ghost predicate SlackLeft(h: Header, first: nat, garbage: seq<byte>, buf: seq<byte>) {
    && |garbage| == |buf|
    && (forall j :: 0 <= j < |buf| && h.numBytes <= first * SECTOR_SIZE + j ==> buf[j] == garbage[j])
  }

  lemma NothingWritten(d: Image, h: Header, pos: nat)
    requires Good(h)
    ensures WrittenOver(d, d, h, pos, [], [])
  {
  }

  /** What a flushed buffer leaves past the end of the file. */
  lemma FlushedSlack(d: Image, d': Image, h: Header, pos: nat, data: seq<byte>, buf: seq<byte>, garbage: seq<byte>)
    requires Good(h) && data != [] && pos + |data| <= h.numBytes && |buf| == BufferSize(pos, |data|)
    requires Written(d, d', h, pos, data) && SlackLeft(h, pos / SECTOR_SIZE, garbage, buf)
    requires Flushed(d, d', h, pos / SECTOR_SIZE, (pos + |data| - 1) / SECTOR_SIZE, buf)
    ensures WrittenOver(d, d', h, pos, data, garbage)
  {
    hide FileByte, Flushed, Contents, Splice, Good;
    var first, last := pos / SECTOR_SIZE, (pos + |data| - 1) / SECTOR_SIZE;
    forall k | h.numBytes <= k < h.numSectors * SECTOR_SIZE
      ensures FileByte(d', h, k) == SlackByte(d, h, pos, |data|, garbage, k)
    {
      SlackInLast(h, k);
      FlushedByte(d, d', h, first, last, buf, k);
    }
  }

  lemma SlackInLast(h: Header, k: nat)
    requires Good(h) && h.numBytes <= k < h.numSectors * SECTOR_SIZE
    ensures k / SECTOR_SIZE == h.numSectors - 1
  {
  }

  /** Sectors first..last of the file hold the buffer and every other sector is unchanged. */
  ghost predicate Flushed(d: Image, d': Image, h: Header, first: nat, last: nat, buf: seq<byte>)
    requires Good(h) && first <= last < h.numSectors && |buf| == (1 + last - first) * SECTOR_SIZE
  {
    && (forall j :: first <= j <= last ==>
                      d'[h.dataSectors[j]] == buf[(j - first) * SECTOR_SIZE..(j - first + 1) * SECTOR_SIZE])
    && (forall s :: 0 <= s < NUM_SECTORS && (forall j :: first <= j <= last ==> h.dataSectors[j] != s) ==>
                      d'[s] == d[s])
  }

  /** The buffer holds sector i of the file from offset `at` on, as far as the file reaches. */
  ghost predicate HoldsSector(d: Image, h: Header, i: nat, buf: seq<byte>, at: nat)
    requires Good(h) && i < h.numSectors
  {
    && at + SECTOR_SIZE <= |buf|
    && (forall k :: i * SECTOR_SIZE <= k < (i + 1) * SECTOR_SIZE && k < h.numBytes ==>
                      buf[at + k - i * SECTOR_SIZE] == FileByte(d, h, k))
  }

  /** Copying the request over the sectors read in gives a staged buffer, for every alignment. */
  lemma Patched(d: Image, h: Header, pos: nat, data: seq<byte>, readIn: seq<byte>, buf: seq<byte>)
    requires Good(h) && data != [] && pos + |data| <= h.numBytes
    requires |readIn| == |buf| == (1 + (pos + |data| - 1) / SECTOR_SIZE - pos / SECTOR_SIZE) * SECTOR_SIZE
    requires pos != pos / SECTOR_SIZE * SECTOR_SIZE ==> HoldsSector(d, h, pos / SECTOR_SIZE, readIn, 0)
    requires pos + |data| != ((pos + |data| - 1) / SECTOR_SIZE + 1) * SECTOR_SIZE ==>
               HoldsSector(d, h, (pos + |data| - 1) / SECTOR_SIZE, readIn,
                           ((pos + |data| - 1) / SECTOR_SIZE - pos / SECTOR_SIZE) * SECTOR_SIZE)
    requires forall k :: 0 <= k < |buf| ==>
                           buf[k] == if pos % SECTOR_SIZE <= k < pos % SECTOR_SIZE + |data|
                                     then data[k - pos % SECTOR_SIZE]
                                     else readIn[k]
    ensures Staged(d, h, pos, data, buf)
  {
    hide SplicedByte, HoldsSector;
    var first := pos / SECTOR_SIZE;
    var last := (pos + |data| - 1) / SECTOR_SIZE;
    forall j | 0 <= j < |buf| && first * SECTOR_SIZE + j < h.numBytes
      ensures buf[j] == SplicedByte(d, h, pos, data, first * SECTOR_SIZE + j)
    {
      PatchedByte(d, h, pos, data, first, last, readIn, j);
    }
  }

  lemma PatchedByte(d: Image, h: Header, pos: nat, data: seq<byte>, first: nat, last: nat, readIn: seq<byte>, j: nat)
    requires Good(h) && data != [] && pos + |data| <= h.numBytes
    requires first * SECTOR_SIZE <= pos < (first + 1) * SECTOR_SIZE
    requires last * SECTOR_SIZE < pos + |data| <= (last + 1) * SECTOR_SIZE
    requires pos != first * SECTOR_SIZE ==> HoldsSector(d, h, first, readIn, 0)
    requires pos + |data| != (last + 1) * SECTOR_SIZE ==> HoldsSector(d, h, last, readIn, (last - first) * SECTOR_SIZE)
    requires j < |readIn| == (1 + last - first) * SECTOR_SIZE && first * SECTOR_SIZE + j < h.numBytes
    ensures SplicedByte(d, h, pos, data, first * SECTOR_SIZE + j) ==
            if pos - first * SECTOR_SIZE <= j < pos - first * SECTOR_SIZE + |data|
            then data[j + first * SECTOR_SIZE - pos]
            else readIn[j]
  {
    hide FileByte;
    var k := first * SECTOR_SIZE + j;
    if k < pos {
      assert readIn[0 + k - first * SECTOR_SIZE] == FileByte(d, h, k);
    } else if pos + |data| <= k {
      assert readIn[(last - first) * SECTOR_SIZE + k - last * SECTOR_SIZE] == FileByte(d, h, k);
    }
  }

  /** Flushing a staged buffer splices the file and touches nothing else. */
  lemma StagedIsSpliced(d: Image, d': Image, h: Header, pos: nat, data: seq<byte>, buf: seq<byte>)
    requires Good(h) && data != [] && pos + |data| <= h.numBytes
    requires Staged(d, h, pos, data, buf)
    requires Flushed(d, d', h, pos / SECTOR_SIZE, (pos + |data| - 1) / SECTOR_SIZE, buf)
    ensures Written(d, d', h, pos, data)
  {
    var first, last := pos / SECTOR_SIZE, (pos + |data| - 1) / SECTOR_SIZE;
    assert |buf| == (1 + last - first) * SECTOR_SIZE && first <= last < h.numSectors;
    hide Contents, Splice, Staged, Flushed, Good, Data, FileByte;
    StagedContents(d, d', h, pos, data, buf);
    FlushLeaves(d, d', h, first, last, buf);
    assert forall j :: Reached(pos, |data|, j) <==> first <= j <= last;
  }

  /** A flush changes no sector but first..last of the file. */
  lemma FlushLeaves(d: Image, d': Image, h: Header, first: nat, last: nat, buf: seq<byte>)
    requires Good(h) && first <= last < h.numSectors && |buf| == (1 + last - first) * SECTOR_SIZE
    requires Flushed(d, d', h, first, last, buf)
    ensures forall j :: 0 <= j < h.numSectors && !(first <= j <= last) ==>
                          d'[h.dataSectors[j]] == d[h.dataSectors[j]]
    ensures forall s :: 0 <= s < NUM_SECTORS && s !in Data(h) ==> d'[s] == d[s]
  {
    hide Flushed;
    forall j | 0 <= j < h.numSectors && !(first <= j <= last)
      ensures d'[h.dataSectors[j]] == d[h.dataSectors[j]]
    {
      FlushKeeps(d, d', h, first, last, buf, j);
    }
    forall s | 0 <= s < NUM_SECTORS && s !in Data(h)
      ensures d'[s] == d[s]
    {
      FlushKeepsOthers(d, d', h, first, last, buf, s);
    }
  }

  lemma StagedContents(d: Image, d': Image, h: Header, pos: nat, data: seq<byte>, buf: seq<byte>)
    requires Good(h) && data != [] && pos + |data| <= h.numBytes
    requires Staged(d, h, pos, data, buf)
    requires Flushed(d, d', h, pos / SECTOR_SIZE, (pos + |data| - 1) / SECTOR_SIZE, buf)
    ensures Contents(d', h) == Splice(Contents(d, h), pos, data)
  {
    hide FileByte, Staged;
    forall k | 0 <= k < h.numBytes
      ensures Contents(d', h)[k] == Splice(Contents(d, h), pos, data)[k]
    {
      StagedByte(d, d', h, pos, data, buf, k);
    }
  }

  lemma FlushKeepsOthers(d: Image, d': Image, h: Header, first: nat, last: nat, buf: seq<byte>, s: int)
    requires Good(h) && first <= last < h.numSectors && |buf| == (1 + last - first) * SECTOR_SIZE
    requires Flushed(d, d', h, first, last, buf) && 0 <= s < NUM_SECTORS && s !in Data(h)
    ensures d'[s] == d[s]
  {
    assert forall j :: first <= j <= last ==> Data(h)[j] == h.dataSectors[j];
  }

  lemma FlushKeeps(d: Image, d': Image, h: Header, first: nat, last: nat, buf: seq<byte>, j: nat)
    requires Good(h) && first <= last < h.numSectors && |buf| == (1 + last - first) * SECTOR_SIZE
    requires Flushed(d, d', h, first, last, buf) && j < h.numSectors && !(first <= j <= last)
    ensures d'[h.dataSectors[j]] == d[h.dataSectors[j]]
  {
    var s := h.dataSectors[j];
    assert s in Data(h);
    forall i | first <= i <= last
      ensures h.dataSectors[i] != s
    {
      assert Data(h)[i] == h.dataSectors[i] && Data(h)[j] == s;
    }
  }

  lemma StagedByte(d: Image, d': Image, h: Header, pos: nat, data: seq<byte>, buf: seq<byte>, k: nat)
    requires Good(h) && data != [] && pos + |data| <= h.numBytes && k < h.numBytes
    requires Staged(d, h, pos, data, buf)
    requires Flushed(d, d', h, pos / SECTOR_SIZE, (pos + |data| - 1) / SECTOR_SIZE, buf)
    ensures FileByte(d', h, k) == SplicedByte(d, h, pos, data, k)
  {
    hide FileByte, Flushed;
    FlushedByte(d, d', h, pos / SECTOR_SIZE, (pos + |data| - 1) / SECTOR_SIZE, buf, k);
  }

  lemma FlushedByte(d: Image, d': Image, h: Header, first: nat, last: nat, buf: seq<byte>, k: nat)
    requires Good(h) && first <= last < h.numSectors && |buf| == (1 + last - first) * SECTOR_SIZE
    requires Flushed(d, d', h, first, last, buf) && k < h.numSectors * SECTOR_SIZE
    ensures FileByte(d', h, k) ==
            if first * SECTOR_SIZE <= k < (last + 1) * SECTOR_SIZE
            then buf[k - first * SECTOR_SIZE]
            else FileByte(d, h, k)
  {
    var j := k / SECTOR_SIZE;
    if first <= j <= last {
      assert d'[h.dataSectors[j]] == buf[(j - first) * SECTOR_SIZE..(j - first + 1) * SECTOR_SIZE];
    }
  }
}

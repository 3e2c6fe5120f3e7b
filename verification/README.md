# Nachos 3.4, verified in part

Nachos is a teaching operating system that runs on a simulated MIPS machine.
This project models its hardest parts in Dafny and proves what they promise:
the disk file system, the process table, threads and semaphores, the interrupt
simulator, address spaces and translation, the console protocol, and the
arithmetic of the disk timing, the multiplier and the integer system calls.
`dafny verify dfyconfig.toml` checks all of it.

How it is laid out:

- **File system** (FILESYS build). `BitMap`, `Sectors`, `FileHeader`,
  `OpenFile` and `Directory` follow the classes of the source, with the byte
  formats of headers, bitmap words and directory entries written out.
  `DiskLayout` states the invariant of a disk image that describes itself: the
  bitmap and the directory are files on the disk they describe.
  `FileSystemSteps` shows that each operation keeps it,
  `FileSystemRefinement` and `FileSystemRuns` that the image refines a map from
  names to byte sequences over every run, and `FileSystem` holds the methods
  that format, create, open and remove, proved to be such steps.
- **Processes.** `ProcessTable` is the table and its three calls up to their
  blocking points; `ProcessRuns` runs them in every order.
- **Kernel core.** `Semaphores` interleaves any number of threads and
  semaphores, with preemption wherever interrupts are on. `List` is the heap
  linked list, `Interrupt` the simulated clock and pending interrupts on top of
  it.
- **Memory.** `Memory` is translation and memory access, `UserCopies` the
  string copies between user and kernel and `AddrSpace` the program loader.
  `Isolation` interleaves processes over shared physical memory, general
  registers and the page-table register; `Kernel` holds the operations on the
  real objects, each proved to be a step of it.
- **Console.** `ConsoleOutput` and `ConsoleInput` (with `ConsoleChars`) interleave any number of
  writers and readers with the one-character device.
- **Arithmetic.** `DiskLatency`, `Mult` and `IntegerIO`.

Conventions. Integers are unbounded in Dafny; where the source's 32 bits
matter (`Bytes`, `Memory`, `Mult`, `IntegerIO`) the wrap-around is written
out, and C's truncating division is modelled where an operand can be negative.
Assertions of the source (`ASSERT`) are preconditions of methods or, in the
protocols, conditions proved never to fail. Devices, clocks and handlers enter
as parameters or as steps that may happen at any time.

Findings: places where the code does less than one would expect, each with a
lemma.

- A console `Read` with no room for a character decides between 0 and -1 on an
  uninitialised variable, and does return -1 in some run
  (`ConsoleInput.EmptyReadFails`); `ConsoleInput.ReadReturns` says exactly when.
- `ReadInt` detects overflow by a change of sign and so misses some:
  2^31 reads as 0, 2^32 + 5 reads as 5 (`IntegerIO.OverflowCaught`,
  `IntegerIO.OverflowMissed`). What any numeral reads as is
  `IntegerIO.NumeralReadsAs`; an overflowing one reads as 0 if and only if some
  prefix of its digits has the wrong sign in 32 bits or its value is a multiple
  of 2^32 (`IntegerIO.OverflowReadsZeroIff`).
- An idling machine that fires an interrupt may leave a timer of the same tick
  unfired, and a run from the start reaches such a state
  (`Interrupts.IdleLeavesTimer`). It does so if and only if at least two
  interrupts are pending, all of them due at the time it jumps to, the last one
  a timer, and no handler before it asks for anything
  (`Interrupts.IdleLeavesIff`).
- A write can lose bytes past a file's length, because the read-back inside
  `WriteAt` stops at the length and the rest of its buffer is whatever was
  allocated (`OpenFiles.SlackLost`). Such a byte can change if and only if the
  write reaches the last sector (`OpenFiles.SlackLostIff`), and then it becomes
  the buffer's byte (`OpenFiles.OpenFile.WriteAt`).
- A one-byte load sign-extends and a halfword load does not
  (`Memory.LowPartRoundTrip`), although the comments on the access routines
  speak of both alike.

## Model

| member | source | states |
|---|---|---|
| `Bytes.LeRoundTrip` | src/nachos-3.4/code/machine/translate.cc:42-71 | the four little-endian bytes of a word decode to the word; the byte-order conversions are the identity on the little-endian host modelled |
| `Bytes.LeByte` | src/nachos-3.4/code/machine/translate.cc:42-71 | byte i of a word has weight 256^i |
| `Bytes.FromLeRoundTrip` | src/nachos-3.4/code/machine/translate.cc:42-71 | any four bytes are those of the word they stand for |
| `Bytes.SameBits` | src/nachos-3.4/code/machine/translate.cc:88-169 | the signed and the unsigned reading of a word differ by a multiple of 2^32 and undo each other |
| `Bytes.WrapKeepsBits` | src/nachos-3.4/code/userprog/exception.cc:190-213 | reduction to 32 bits changes a number by a multiple of 2^32 only, and one that fits not at all |
| `Bytes.CDivTruncates` | src/nachos-3.4/code/userprog/exception.cc:146-151 | the remainder that goes with C's division is smaller than the divisor and has the dividend's sign |
| `Bytes.WordsRoundTrip` | src/nachos-3.4/code/filesys/filehdr.cc:78-94 | word i of an encoded array of words decodes to word i, for any array |
| `BitMaps.MaskIsShift` | src/nachos-3.4/code/userprog/bitmap.cc:47-83 | the mask of a bit is `1 << k` on 32-bit words, for every k |
| `BitMaps.BitAfterMask` | src/nachos-3.4/code/userprog/bitmap.cc:47-83 | or-ing a mask sets exactly its own bit and and-ing the complement clears exactly its own bit of a word |
| `BitMaps.BitPlace` | src/nachos-3.4/code/userprog/bitmap.cc:47-83 | bit i of a map is bit i mod 32 of word i / 32 |
| `BitMaps.MarkedWord` | src/nachos-3.4/code/userprog/bitmap.cc:47-51 | the word-level update of `Mark` changes exactly one position of the bit sequence that the words hold |
| `BitMaps.ClearedWord` | src/nachos-3.4/code/userprog/bitmap.cc:61-65 | the same for `Clear` |
| `BitMaps.ClearPlusMarked` | src/nachos-3.4/code/userprog/bitmap.cc:112-119 | clear and marked positions add up to the size of the map |
| `BitMaps.MarkTakesOne` | src/nachos-3.4/code/userprog/bitmap.cc:47-51 | marking a clear bit removes exactly that one position from the clear ones |
| `BitMaps.BitMap.constructor` | src/nachos-3.4/code/userprog/bitmap.cc:20-27 | a new map has every bit clear |
| `BitMaps.BitMap.Mark` | src/nachos-3.4/code/userprog/bitmap.cc:47-51 | the bit sequence is the old one with that bit set |
| `BitMaps.BitMap.ClearBit` | src/nachos-3.4/code/userprog/bitmap.cc:61-65 | the bit sequence is the old one with that bit clear |
| `BitMaps.BitMap.Test` | src/nachos-3.4/code/userprog/bitmap.cc:75-83 | returns the bit |
| `BitMaps.BitMap.Find` | src/nachos-3.4/code/userprog/bitmap.cc:95-103 | returns and marks the lowest clear bit, or returns -1 and changes nothing exactly when none is clear |
| `BitMaps.BitMap.NumClear` | src/nachos-3.4/code/userprog/bitmap.cc:112-119 | returns the number of clear positions |
| `BitMaps.WordBytesRoundTrip` | src/nachos-3.4/code/userprog/bitmap.cc:149-165 | words written to a file as bytes are read back unchanged |
| `Sectors.SynchDisk.ReadSector` | src/nachos-3.4/code/filesys/synchdisk.cc:73-79 | the buffer holds the sector at the given offset and nothing else of it changes |
| `Sectors.SynchDisk.WriteSector` | src/nachos-3.4/code/filesys/synchdisk.cc:91-97 | exactly that sector of the image is replaced |
| `FileHeaders.HeaderRoundTrip` | src/nachos-3.4/code/filesys/filehdr.cc:78-94 | a header encoded to its one sector decodes to itself |
| `FileHeaders.HeaderLayout` | src/nachos-3.4/code/filesys/filehdr.h:58-64 | length, number of data sectors and their numbers lie in the sector in this order, a little-endian word each |
| `FileHeaders.DivRoundUp` | src/nachos-3.4/code/filesys/filehdr.cc:42-52 | the fewest sectors that hold so many bytes |
| `FileHeaders.FileHeader.FetchFrom` | src/nachos-3.4/code/filesys/filehdr.cc:78-81 | the header becomes the one decoded from the sector |
| `FileHeaders.FileHeader.WriteBack` | src/nachos-3.4/code/filesys/filehdr.cc:91-94 | the sector becomes the encoded header and no other sector changes |
| `FileHeaders.FileHeader.Allocate` | src/nachos-3.4/code/filesys/filehdr.cc:42-52 | succeeds exactly when enough sectors are clear; then the data sectors are distinct, were clear, are exactly the ones newly marked and are first fit; on failure the map is unchanged |
| `FileHeaders.FileHeader.Deallocate` | src/nachos-3.4/code/filesys/filehdr.cc:62-68 | clears exactly the file's data sectors, and the assertion on each holds when its turn comes |
| `BitMaps.TakeOneMore` | src/nachos-3.4/code/filesys/filehdr.cc:42-52 | one more first-fit pick extends a run of taken sectors to a longer one |
| `OpenFiles.OpenFile.constructor` | src/nachos-3.4/code/filesys/openfile.cc:30-35 | the handle caches the header found at the sector and starts at position 0 |
| `OpenFiles.OpenFile.Seek` | src/nachos-3.4/code/filesys/openfile.cc:56-59 | sets the position and nothing else |
| `OpenFiles.ClampIsMost` | src/nachos-3.4/code/filesys/openfile.cc:123-126 | a transfer is the most that the request asks for and the file holds |
| `OpenFiles.SpliceByte` | src/nachos-3.4/code/filesys/openfile.cc:177-183 | each byte after a write comes from the data inside the range written and from the old contents outside |
| `OpenFiles.OpenFile.ReadAt` | src/nachos-3.4/code/filesys/openfile.cc:117-144 | copies out exactly the slice of the file's contents at the position, clamped to the file length, for every alignment, and touches no other byte of the buffer |
| `OpenFiles.OpenFile.ReadSectors` | src/nachos-3.4/code/filesys/openfile.cc:134-138 | the buffer holds the bytes of the file's sectors from first to last |
| `OpenFiles.OpenFile.WriteAt` | src/nachos-3.4/code/filesys/openfile.cc:147-186 | splices the clamped request into the file's contents and leaves every sector unchanged but those of the file that the request reaches; a byte past the end is that of the buffer as allocated if the last sector is reached, and otherwise the old one |
| `OpenFiles.SlackLostIff` | src/nachos-3.4/code/filesys/openfile.cc:165-183 | a byte past the end of the file can be changed by a write if and only if the write reaches the last sector |
| `OpenFiles.SlackLost` | src/nachos-3.4/code/filesys/openfile.cc:165-183 | a one-byte write to a one-byte file that changes the byte after it |
| `OpenFiles.SlackKept` | src/nachos-3.4/code/filesys/openfile.cc:170-183 | bytes past the end of the file survive every write that does not reach its last sector |
| `OpenFiles.FlushedSlack` | src/nachos-3.4/code/filesys/openfile.cc:180-183 | flushing the buffer leaves its allocated content past the end of the file, in the last sector if that is reached |
| `OpenFiles.OpenFile.Stage` | src/nachos-3.4/code/filesys/openfile.cc:165-178 | the buffer agrees with the spliced contents wherever it covers the file, whether or not the first and last sector are partly overwritten, and past the end of the file it still holds what it was allocated with |
| `OpenFiles.OpenFile.ReadEnds` | src/nachos-3.4/code/filesys/openfile.cc:167-175 | after it the partly covered end sectors are in the buffer as far as the file reaches, and past the end of the file the buffer is untouched |
| `OpenFiles.OpenFile.ReadBack` | src/nachos-3.4/code/filesys/openfile.cc:170-175 | one sector of the file is read into its place in the buffer as far as the file reaches, and no other byte of the buffer changes |
| `OpenFiles.OpenFile.WriteSectors` | src/nachos-3.4/code/filesys/openfile.cc:180-183 | the covered sectors hold the buffer, and no other sector changes |
| `OpenFiles.Patched` | src/nachos-3.4/code/filesys/openfile.cc:167-178 | reading in the partly covered end sectors and copying the request over them gives a staged buffer, for every alignment |
| `OpenFiles.StagedIsSpliced` | src/nachos-3.4/code/filesys/openfile.cc:161-183 | flushing a staged buffer splices the file and touches nothing else |
| `OpenFiles.OpenFile.Read` | src/nachos-3.4/code/filesys/openfile.cc:75-80 | reads the slice at the position and advances it by the bytes transferred |
| `OpenFiles.OpenFile.Write` | src/nachos-3.4/code/filesys/openfile.cc:83-88 | writes at the position and advances it by the bytes transferred |
| `Directories.KeyIs` | src/nachos-3.4/code/filesys/directory.cc:91-97 | the key of a name is its first nine characters, or all of them if there are fewer |
| `Directories.NamesAgree` | src/nachos-3.4/code/filesys/directory.cc:91-97 | the comparison takes two names for the same exactly when they agree on their first nine characters |
| `Directories.StrNEqIsKeyEq` | src/nachos-3.4/code/filesys/directory.cc:91-97 | it tells names apart exactly by their keys |
| `Directories.StrNCpyIs` | src/nachos-3.4/code/filesys/directory.cc:130-143 | the copy holds the first nine characters, NULs after them, and the tenth byte as it was |
| `Directories.KeyOfCopy` | src/nachos-3.4/code/filesys/directory.cc:130-143 | a name copied into an entry keeps its key, whatever the entry held before |
| `Directories.EntryRoundTrip` | src/nachos-3.4/code/filesys/directory.cc:64-80 | an entry decodes from its bytes unchanged |
| `Directories.EntryLayout` | src/nachos-3.4/code/filesys/directory.h:32-39 | the flag lies first, the sector at 4 and the name at 8 |
| `Directories.TableRoundTrip` | src/nachos-3.4/code/filesys/directory.cc:64-80 | a whole table decodes from its bytes unchanged |
| `Directories.Directory.constructor` | src/nachos-3.4/code/filesys/directory.cc:38-44 | no entry of a new table is in use |
| `Directories.Directory.FetchFrom` | src/nachos-3.4/code/filesys/directory.cc:64-67 | the table becomes the one stored in the file |
| `Directories.Directory.WriteBack` | src/nachos-3.4/code/filesys/directory.cc:77-80 | the file's bytes become the encoded table, and only the file's sectors change |
| `Directories.Lookup` | src/nachos-3.4/code/filesys/directory.cc:91-97 | the first entry in use with the key, and -1 only if there is none |
| `Directories.Directory.FindIndex` | src/nachos-3.4/code/filesys/directory.cc:91-97 | returns that entry's index |
| `Directories.Directory.Find` | src/nachos-3.4/code/filesys/directory.cc:109-116 | returns that entry's sector, or -1 |
| `Directories.Directory.Add` | src/nachos-3.4/code/filesys/directory.cc:130-143 | succeeds exactly when the name is not listed and a slot is free; then only the first free slot changes, otherwise nothing |
| `Directories.Directory.Remove` | src/nachos-3.4/code/filesys/directory.cc:154-162 | drops exactly the named entry, and reports whether there was one |
| `DiskLayout.TableFlushed` | src/nachos-3.4/code/filesys/filesys.cc:125-126 | writing the table through the directory file commits it and leaves the bitmap and all sectors outside the directory's data as they were |
| `DiskLayout.MapFlushed` | src/nachos-3.4/code/filesys/filesys.cc:125-126 | the same for the bitmap file |
| `DiskLayout.HeaderFlushed` | src/nachos-3.4/code/filesys/filesys.cc:205-207 | writing a header to a sector outside the system files leaves both of these alone |
| `DiskLayout.CommitsCompose` | src/nachos-3.4/code/filesys/filesys.cc:205-207 | two flushes in a row are one commit of both |
| `FileSystemSteps.CreateKeepsInv` | src/nachos-3.4/code/filesys/filesys.cc:175-215 | after `Create` the bitmap again marks exactly the system sectors and the listed files' header and data sectors, all of them disjoint, with distinct names |
| `FileSystemSteps.RemoveKeepsInv` | src/nachos-3.4/code/filesys/filesys.cc:258-288 | the same after `Remove` |
| `FileSystemSteps.OverwriteKeepsInv` | src/nachos-3.4/code/filesys/openfile.cc:147-186 | the same after a write to a listed file, which also leaves the directory and the bitmap as they were |
| `FileSystemSteps.EntryKept` | src/nachos-3.4/code/filesys/filesys.cc:175-288 | a commit that touches none of a file's sectors keeps its header and contents |
| `FileSystemSteps.NewSectorsWereClear` | src/nachos-3.4/code/filesys/filesys.cc:193-201 | every sector that `Create` takes was clear before |
| `FileSystemRefinement.LookupIsAbs` | src/nachos-3.4/code/filesys/filesys.cc:228-241 | the directory lookup finds exactly the names of the abstract map, with their contents |
| `FileSystemRefinement.CreateOnAbs` | src/nachos-3.4/code/filesys/filesys.cc:175-215 | `Create` adds one file of the requested length to the map and changes no other |
| `FileSystemRefinement.RemoveOnAbs` | src/nachos-3.4/code/filesys/filesys.cc:258-288 | `Remove` drops exactly the named file from the map |
| `FileSystemRefinement.OverwriteOnAbs` | src/nachos-3.4/code/filesys/openfile.cc:147-186 | a write splices the bytes of one file of the map and leaves every other file's alone |
| `FileSystemRuns.CreateTakes` | src/nachos-3.4/code/filesys/filesys.cc:193-207 | a successful `Create` lowers the free count by exactly one plus the size in sectors, rounded up |
| `FileSystemRuns.RemoveGives` | src/nachos-3.4/code/filesys/filesys.cc:272-283 | `Remove` raises it by exactly that of the removed file |
| `FileSystemRuns.FreePlusOwned` | src/nachos-3.4/code/filesys/filesys.cc:80-143 | free sectors and the sectors of the system and of all listed files always add up to the disk |
| `FileSystemRuns.SlotIffRoom` | src/nachos-3.4/code/filesys/directory.cc:130-143 | a slot is free exactly when fewer than ten names are listed |
| `FileSystemRuns.CanCreateOnStore` | src/nachos-3.4/code/filesys/filesys.cc:175-215 | `Create` can succeed exactly when the name is new, fewer than ten names are listed and enough sectors are free |
| `FileSystemRuns.StepRefines` | src/nachos-3.4/code/filesys/filesys.cc:175-288 | every step of the code, failures included, is a step of the abstract store of contents and free count |
| `FileSystemRuns.RunRefines` | src/nachos-3.4/code/filesys/filesys.cc:80-288 | over every run of creates, removes and writes from a good image: the layout invariant, the simulation of the abstract store, and conservation of sectors |
| `FileSystemRuns.StepKeepsEntry` | src/nachos-3.4/code/filesys/filesys.cc:175-288 | a step that does not remove a file, a write to it included, keeps its entry and header |
| `FileSystemRuns.RunKeepsFile` | src/nachos-3.4/code/filesys/openfile.cc:30-35 | until it is removed a file keeps entry, header and sectors over every run, so a header cached by a handle stays right and a later remove gives back the same sectors |
| `FileSystemRuns.HandleReads` | src/nachos-3.4/code/filesys/openfile.cc:117-144 | what is read through a handle with a current header is the slice of the abstract contents |
| `FileSystemRuns.HandleWrites` | src/nachos-3.4/code/filesys/openfile.cc:147-186 | a write through such a handle is a step of the run |
| `FileSystems.FetchMap` | src/nachos-3.4/code/userprog/bitmap.cc:149-152 | the bitmap in memory becomes the one stored on the disk |
| `FileSystems.WriteBackMap` | src/nachos-3.4/code/userprog/bitmap.cc:162-165 | the bitmap on the disk becomes the one in memory and nothing outside its file changes |
| `FileSystems.FileSystem.Mount` | src/nachos-3.4/code/filesys/filesys.cc:137-142 | opening the two system files of a good disk changes no byte and caches their headers |
| `FileSystems.FileSystem.Format` | src/nachos-3.4/code/filesys/filesys.cc:80-126 | formatting a disk of arbitrary content gives a good image that lists nothing and has five sectors in use |
| `FileSystems.FileSystem.Layout` | src/nachos-3.4/code/filesys/filesys.cc:84-100 | in memory, exactly sectors 0 and 1 and the two files' data are marked, and these are disjoint |
| `FileSystems.FileSystem.WriteHeaders` | src/nachos-3.4/code/filesys/filesys.cc:102-109 | on any disk, the two reserved sectors become the two headers and the system files are in order |
| `FileSystems.FileSystem.WriteFiles` | src/nachos-3.4/code/filesys/filesys.cc:118-126 | bitmap and directory on disk become the ones in memory, and both headers stay |
| `FileSystems.Formatted` | src/nachos-3.4/code/filesys/filesys.cc:80-126 | the image that formatting leaves satisfies the layout invariant |
| `FileSystems.FileSystem.Create` | src/nachos-3.4/code/filesys/filesys.cc:175-215 | succeeds exactly when it can; a step of the run, so that a failed call changes no byte of the disk; keeps the layout |
| `FileSystems.FileSystem.Reserve` | src/nachos-3.4/code/filesys/filesys.cc:191-201 | in memory, succeeds exactly when a header sector, a slot and enough data sectors are there; then the first of each is taken and nothing else |
| `FileSystems.FileSystem.Commit` | src/nachos-3.4/code/filesys/filesys.cc:203-207 | header, directory and bitmap are flushed, and nothing else changes but the sectors they occupy |
| `FileSystems.FileSystem.Remove` | src/nachos-3.4/code/filesys/filesys.cc:258-288 | succeeds exactly when the name is listed; a step of the run; keeps the layout |
| `FileSystems.FileSystem.Release` | src/nachos-3.4/code/filesys/filesys.cc:272-279 | clears exactly the header sector and the data sectors of the file |
| `FileSystems.FileSystem.Flush` | src/nachos-3.4/code/filesys/filesys.cc:282-283 | bitmap and directory on disk become the ones in memory |
| `FileSystems.FileSystem.Open` | src/nachos-3.4/code/filesys/filesys.cc:228-241 | returns a handle exactly for a listed name, whose contents are those of the abstract map and whose header is the one on disk |
| `ProcessTable.AllClearIffFull` | src/nachos-3.4/code/threads/ptable.cc:40-43 | counting MAX_PROCESS clear bits is the same as no process being live |
| `ProcessTable.PTable.FindCurrent` | src/nachos-3.4/code/threads/ptable.cc:51-56 | the search loop finds the first slot of the current thread, or none |
| `ProcessTable.PTable.ExecUpdate` | src/nachos-3.4/code/threads/ptable.cc:20-84 | table, bitmap and result are those of the specified step, for every failing branch as well |
| `ProcessTable.PTable.JoinUpdate` | src/nachos-3.4/code/threads/ptable.cc:118-136 | the same, up to where the call returns or blocks |
| `ProcessTable.PTable.ExitUpdate` | src/nachos-3.4/code/threads/ptable.cc:86-116 | the same, including the release of the parent and the halt of the root |
| `ProcessRuns.ExecKeeps` | src/nachos-3.4/code/threads/ptable.cc:20-84 | `Exec` keeps the invariant of the table, in every branch |
| `ProcessRuns.ExecStarts` | src/nachos-3.4/code/threads/ptable.cc:20-84 | `Exec` starts a child exactly when the file opens, is not the caller's own and a slot is empty: in the lowest one, under the caller, whose number is the answer; otherwise it answers -1 and changes nothing |
| `ProcessRuns.FirstExec` | src/nachos-3.4/code/threads/ptable.cc:40-43 | on an empty table the first program that opens becomes process 0 without a parent |
| `ProcessRuns.StrangerRefused` | src/nachos-3.4/code/threads/ptable.cc:58-62 | a thread that is no process is refused by all three calls and nothing changes |
| `ProcessRuns.JoinAnswers` | src/nachos-3.4/code/threads/ptable.cc:118-136 | `Join` sleeps on a live child of the caller and answers -1 to anything else |
| `ProcessRuns.ExitDecides` | src/nachos-3.4/code/threads/ptable.cc:86-116 | `Exit` waits exactly while there are children; without any the root halts the machine, and any other process leaves its slot, its exit code and one signal to a parent that waits for it, and changes nothing else |
| `ProcessRuns.ExitWakesDecides` | src/nachos-3.4/code/threads/ptable.cc:99-115 | an `Exit` that resumes has no children left and does the same |
| `ProcessRuns.JoinKeeps` | src/nachos-3.4/code/threads/ptable.cc:118-136 | `Join` keeps it, and blocks exactly on a live child of the caller; in every other case nothing changes |
| `ProcessRuns.JoinWakesKeeps` | src/nachos-3.4/code/threads/pcb.cc:79-97 | a `Join` that resumes returns the exit code of the very child it named, even if its slot was reused |
| `ProcessRuns.ExitKeeps` | src/nachos-3.4/code/threads/ptable.cc:86-116 | `Exit` keeps the invariant whether it waits for children, releases the parent or halts |
| `ProcessRuns.ExitWakesKeeps` | src/nachos-3.4/code/threads/pcb.cc:85-103 | so does an `Exit` that resumes after its last child has gone |
| `ProcessRuns.StepKeeps` | src/nachos-3.4/code/threads/ptable.cc:20-136 | every step of any process keeps the invariant |
| `ProcessRuns.BootOk` | src/nachos-3.4/code/threads/ptable.cc:40-43 | the first `Exec` on an empty table establishes it, with process 0 running and nothing halted |
| `ProcessRuns.RunInv` | src/nachos-3.4/code/threads/ptable.cc:20-136 | it holds throughout every interleaving |
| `ProcessRuns.ReachableTable` | src/nachos-3.4/code/threads/ptable.cc:20-116 | in every reachable state: a bit is set exactly for a live block, `numwait` is the number of live children, a non-root's parent is live, at most one exit signal per process, and every completed join got its child's exit code |
| `ProcessRuns.SleeperHasReason` | src/nachos-3.4/code/threads/pcb.cc:79-103 | in every reachable state a process asleep in `Join` or `Exit` waits on a live child or has its signal already |
| `ProcessRuns.WaitsForAcyclic` | src/nachos-3.4/code/threads/pcb.cc:79-90 | the wait-for relation has no cycle |
| `ProcessRuns.NoDeadlock` | src/nachos-3.4/code/threads/ptable.cc:86-136 | until the root exits some process can always take a step |
| `Semaphores.PKeeps` | src/nachos-3.4/code/threads/synch.cc:65-77 | one turn of the loop in `P` keeps the invariant, whether it sleeps or takes a unit |
| `Semaphores.VKeeps` | src/nachos-3.4/code/threads/synch.cc:88-98 | `V` keeps it, waking the first waiter if there is one |
| `Semaphores.YieldKeeps` | src/nachos-3.4/code/threads/thread.cc:175-190 | `Yield` keeps it |
| `Semaphores.ForkKeeps` | src/nachos-3.4/code/threads/thread.cc:88-99 | `Fork` keeps it |
| `Semaphores.FinishKeeps` | src/nachos-3.4/code/threads/thread.cc:144-154 | `Finish` keeps it |
| `Semaphores.DispatchKeeps` | src/nachos-3.4/code/threads/thread.cc:212-226 | putting the head of the ready list on the processor keeps it |
| `Semaphores.StepKeeps` | src/nachos-3.4/code/threads/synch.cc:65-98 | every step of any thread keeps it |
| `Semaphores.RunInv` | src/nachos-3.4/code/threads/synch.cc:65-98 | it holds throughout every interleaving of any number of threads and semaphores |
| `Semaphores.PTakesUnit` | src/nachos-3.4/code/threads/synch.cc:65-77 | a P returns exactly when the value is positive and then takes one unit; otherwise its caller sleeps at the end of the queue |
| `Semaphores.OnlyPAndV` | src/nachos-3.4/code/threads/synch.cc:65-98 | a V adds one unit, a P that returns takes one, and no other step changes a value |
| `Semaphores.ValueOverRun` | src/nachos-3.4/code/threads/synch.cc:36-98 | over every run, value = the initial value it was created with + Vs - Ps that returned, all counted on the steps of the run |
| `Semaphores.NoLostWakeup` | src/nachos-3.4/code/threads/synch.cc:65-98 | while a queue is non-empty the value is at most the number of woken waiters that have yet to run, each of which is running or ready |
| `Semaphores.WhatCanHappen` | src/nachos-3.4/code/threads/synch.cc:65-98 | in every reachable state the running thread, a handler or the idle processor can take its steps |
| `Semaphores.ThreadsInOnePlace` | src/nachos-3.4/code/threads/scheduler.cc:54-74 | each live thread is in exactly one of: the processor, the ready list, one wait queue; a dead one in none |
| `Semaphores.StepOrder` | src/nachos-3.4/code/threads/scheduler.cc:54-74 | no step overtakes: the sequence of dispatched and ready threads only grows at its end |
| `Semaphores.FirstComeFirstServed` | src/nachos-3.4/code/threads/scheduler.cc:54-74 | a ready thread with j others ahead of it is dispatched after exactly those j, in their order, over every run |
| `Semaphores.YielderWaits` | src/nachos-3.4/code/threads/thread.cc:175-190 | a thread that yields to L ready threads gives up the processor and runs again after exactly those L |
| `Semaphores.YieldAlone` | src/nachos-3.4/code/threads/thread.cc:175-190 | a thread that yields with nobody ready goes on running |
| `Semaphores.ForkedIsLast` | src/nachos-3.4/code/threads/thread.cc:88-99 | a forked thread is new, goes behind all ready ones, and nothing else changes |
| `Semaphores.FinishedIsGone` | src/nachos-3.4/code/threads/thread.cc:144-154 | a finished thread is gone and the first ready thread takes its place |
| `Semaphores.IdleTakesFirst` | src/nachos-3.4/code/threads/thread.cc:212-226 | an idle processor takes the first ready thread |
| `Semaphores.RunQueue` | src/nachos-3.4/code/threads/synch.cc:65-98 | over every run, after d further Vs a wait queue starts with what it held from position d on |
| `Semaphores.WaitersFirstComeFirstServed` | src/nachos-3.4/code/threads/synch.cc:65-98 | a waiter with j others ahead of it is made ready by exactly the V that follows j further Vs |
| `Lists.InsertedAt` | src/nachos-3.4/code/threads/list.cc:184-201 | where the search loop stops is where the specification puts the entry, on any list |
| `Lists.InsertAddsOne` | src/nachos-3.4/code/threads/list.cc:178-202 | sorted insertion adds exactly one entry and keeps all others |
| `Lists.InsertKeepsSorted` | src/nachos-3.4/code/threads/list.cc:178-202 | on a sorted list the entry lands after exactly the keys up to its own, and the list stays sorted |
| `Lists.InsertIsStable` | src/nachos-3.4/code/threads/list.cc:178-202 | it queues behind the entries of its own key and reorders no others |
| `Lists.InsertAllSorts` | src/nachos-3.4/code/threads/list.cc:178-202 | a list built by sorted insertions is a sorted permutation of what was inserted, in insertion order among equal keys |
| `Lists.HeadIsMinimum` | src/nachos-3.4/code/threads/list.cc:217-237 | the head of a sorted list has a minimum key and the remainder is sorted |
| `Lists.ListElement.constructor` | src/nachos-3.4/code/threads/list.cc:30-35 | a new node holds item and key and has no successor |
| `Lists.List.constructor` | src/nachos-3.4/code/threads/list.cc:43-46 | a new list is well linked and empty |
| `Lists.List.IsEmpty` | src/nachos-3.4/code/threads/list.cc:154-161 | true exactly for the empty sequence |
| `Lists.List.Append` | src/nachos-3.4/code/threads/list.cc:76-88 | the sequence gains the item with key 0 at its end; the nodes stay well linked, `last` at the true tail |
| `Lists.List.Prepend` | src/nachos-3.4/code/threads/list.cc:102-114 | the sequence gains the item with key 0 at its front |
| `Lists.List.SortedInsert` | src/nachos-3.4/code/threads/list.cc:178-202 | the sequence becomes the specified insertion, on any list; acyclic and well linked through `first` and `last` |
| `Lists.List.LinkAfter` | src/nachos-3.4/code/threads/list.cc:194-195 | the two pointer writes insert one node and move no other |
| `Lists.List.SortedRemove` | src/nachos-3.4/code/threads/list.cc:217-237 | takes off the first entry with its key, or reports an empty list |
| `Lists.List.Remove` | src/nachos-3.4/code/threads/list.cc:124-128 | the same without the key |
| `Interrupts.CheckLowersDue` | src/nachos-3.4/code/machine/interrupt.cc:150-179 | each handler that fires lowers the number of due interrupts, because handlers schedule strictly later; so the firing loop terminates |
| `Interrupts.ScheduleKeeps` | src/nachos-3.4/code/machine/interrupt.cc:264-275 | scheduling keeps the queue sorted and keyed by time, and loses nothing |
| `Interrupts.ScheduleAsks` | src/nachos-3.4/code/machine/interrupt.cc:264-275 | a request becomes pending for its own handler, argument and device at its delay from now, and nothing else does |
| `Interrupts.CheckKeeps` | src/nachos-3.4/code/machine/interrupt.cc:290-336 | a pass fires exactly the head and only when it is due; otherwise it puts everything back, and then nothing is due outside idle mode |
| `Interrupts.FireAllKeeps` | src/nachos-3.4/code/machine/interrupt.cc:165-171 | the firing loop keeps all invariants and ends with nothing due, but for a lone timer in idle mode |
| `Interrupts.FireAllExactly` | src/nachos-3.4/code/machine/interrupt.cc:165-171 | it fires exactly the interrupts that were due when it started, each once, in order of time |
| `Interrupts.OneTickKeeps` | src/nachos-3.4/code/machine/interrupt.cc:150-179 | a tick moves the clock by the tick of its mode and charges it to that mode, fires exactly what became due and leaves nothing overdue |
| `Interrupts.FireAllObeys` | src/nachos-3.4/code/machine/interrupt.cc:165-171 | the loop schedules exactly what the fired handlers ask for, in order, and wants a yield exactly if one of them asked |
| `Interrupts.TickObeys` | src/nachos-3.4/code/machine/interrupt.cc:150-179 | so does a tick, which yields exactly if a handler asked for it |
| `Interrupts.IdleObeys` | src/nachos-3.4/code/machine/interrupt.cc:210-234 | so does idling, which takes back any wish to yield |
| `Interrupts.IdleKeeps` | src/nachos-3.4/code/machine/interrupt.cc:210-234 | idling moves the clock exactly to the next interrupt, as idle time, and keeps the invariants; it halts exactly when nothing but a timer is pending |
| `Interrupts.FutureMeansNothingDue` | src/nachos-3.4/code/machine/interrupt.cc:290-336 | with a future interrupt pending even an idle machine fires everything due |
| `Interrupts.IdleLoopLeavesIff` | src/nachos-3.4/code/machine/interrupt.cc:314-319 | the firing loop of an idle machine leaves something due if and only if everything pending is due, the last is a timer, and no handler fired before it schedules anything |
| `Interrupts.IdleLeavesIff` | src/nachos-3.4/code/machine/interrupt.cc:210-234 | so does idling itself, if and only if that holds of at least two pending interrupts at the time it jumps to: a condition on the state before the call |
| `Interrupts.IdleFires` | src/nachos-3.4/code/machine/interrupt.cc:210-234 | idling that does not halt fires exactly what is due at the time it jumps to, in order, but for a timer it leaves |
| `Interrupts.IdleLeavesTimer` | src/nachos-3.4/code/machine/interrupt.cc:314-319 | a run from the start that leaves a due timer: two interrupts scheduled for one tick, then idling |
| `Interrupts.StepKeeps` | src/nachos-3.4/code/machine/interrupt.cc:96-336 | every operation keeps the invariants and never turns the clock back |
| `Interrupts.StepCharges` | src/nachos-3.4/code/machine/interrupt.cc:114-179 | each step charges its ten or one ticks, or the jump of the idle clock, to the right counter, and sets the level or mode asked for |
| `Interrupts.RunTicks` | src/nachos-3.4/code/machine/stats.h:22-53 | over every run: ten ticks of system time for each tick in system mode and one of user time for each in user mode |
| `Interrupts.WhatCanHappen` | src/nachos-3.4/code/machine/interrupt.cc:114-234 | until the machine halts: instructions exactly with interrupts on, idling exactly with them off, everything else at any time |
| `Interrupts.RunInv` | src/nachos-3.4/code/machine/interrupt.cc:96-336 | over every run and for any handlers: sorted queue, total = idle + system + user, clock never back, every handler ran at or after its time and at most one system tick after it, every scheduled interrupt is pending or fired exactly once |
| `Interrupts.Interrupt.constructor` | src/nachos-3.4/code/machine/interrupt.cc:60-67 | starts with interrupts off, nothing pending and the clock at zero |
| `Interrupts.Interrupt.Schedule` | src/nachos-3.4/code/machine/interrupt.cc:264-275 | the state becomes the one with the interrupt inserted at now plus the delay |
| `Interrupts.Interrupt.CheckIfDue` | src/nachos-3.4/code/machine/interrupt.cc:290-336 | state and result are those of the specified pass, with all four outcomes |
| `Interrupts.Interrupt.OneTick` | src/nachos-3.4/code/machine/interrupt.cc:150-179 | the state is the specified one up to the optional yield, whose occurrence is the result; the loop terminates |
| `Interrupts.Interrupt.SetLevel` | src/nachos-3.4/code/machine/interrupt.cc:114-127 | ticks exactly when interrupts go from off to on; returns the old level |
| `Interrupts.Interrupt.Idle` | src/nachos-3.4/code/machine/interrupt.cc:210-234 | the state is the specified one, including the halt |
| `Memory.PageHolds` | src/nachos-3.4/code/machine/translate.cc:187-255 | an aligned access of 1, 2 or 4 bytes does not cross the end of its page |
| `Memory.Machine.Translate` | src/nachos-3.4/code/machine/translate.cc:187-255 | exception and physical address are those specified; the page's use bit, and on a write its dirty bit, are set on success only |
| `Memory.TranslationCases` | src/nachos-3.4/code/machine/translate.cc:187-255 | which exception an access raises on any table, as an if-and-only-if for each, and the physical address otherwise |
| `Memory.TouchedIs` | src/nachos-3.4/code/machine/translate.cc:248-250 | a successful access marks exactly its own page as used, and as dirty exactly on a write |
| `Memory.SignedCharIs` | src/nachos-3.4/code/machine/translate.cc:88-122 | a byte loaded into a register has its bits and the range of a signed char |
| `Memory.Machine.ReadMem` | src/nachos-3.4/code/machine/translate.cc:88-122 | returns the value of the translated bytes, or fails exactly when translation does; memory is unchanged |
| `Memory.Machine.WriteMem` | src/nachos-3.4/code/machine/translate.cc:138-169 | replaces exactly the translated bytes, or fails exactly when translation does, with memory unchanged |
| `Memory.TranslationIsFlat` | src/nachos-3.4/code/machine/translate.cc:187-255 | with a good table, translation succeeds exactly for aligned addresses inside the space, and the bytes of an access are contiguous in memory |
| `Memory.ReadIsFlat` | src/nachos-3.4/code/machine/translate.cc:88-122 | a read returns the little-endian value at its address of one flat byte memory |
| `Memory.WriteIsFlat` | src/nachos-3.4/code/machine/translate.cc:138-169 | a write replaces exactly its own bytes of that flat memory |
| `Memory.TouchedMapsTheSame` | src/nachos-3.4/code/machine/translate.cc:248-250 | use and dirty bits do not change what a table maps |
| `Memory.WordRoundTrip` | src/nachos-3.4/code/machine/translate.cc:88-169 | a stored word loads back unchanged |
| `Memory.LowPartRoundTrip` | src/nachos-3.4/code/machine/translate.cc:88-169 | a stored halfword loads back zero-extended, a byte sign-extended |
| `UserCopies.System2User` | src/nachos-3.4/code/machine/machine.cc:244-257 | copies up to and including a NUL, at most `len` bytes, into the flat memory and nothing else; returns the count, or -1 for a negative length |
| `UserCopies.CopyLength` | src/nachos-3.4/code/machine/machine.cc:250-254 | the bytes copied end with the first NUL or at the length, whichever comes first |
| `UserCopies.User2System` | src/nachos-3.4/code/machine/machine.cc:221-241 | the buffer holds the user's bytes up to a NUL or the limit and zeroes after them; user memory is unchanged |
| `UserCopies.StringRoundTrip` | src/nachos-3.4/code/machine/machine.cc:221-257 | on the flat memory: a string without NULs that fits the limits and is stored with its terminator is found whole, across page boundaries |
| `UserCopies.CopyOutAndIn` | src/nachos-3.4/code/machine/machine.cc:221-257 | copying such a string out and reading it back with the two routines returns it, padded with zeros, and changes user memory in exactly those bytes |
| `AddrSpaces.AllocatePages` | src/nachos-3.4/code/userprog/addrspace.cc:92-105 | every page gets a distinct frame that was free, exactly these frames are newly marked, their bytes are zero and no other byte of memory changes |
| `AddrSpaces.NumPagesIs` | src/nachos-3.4/code/userprog/addrspace.cc:77-81 | an address space is the fewest pages that hold the three segments and a stack of 1024 bytes |
| `AddrSpaces.NoffRoundTrip` | src/nachos-3.4/code/bin/noff.h:12-25 | an object file's header is read as its declaration lays it out, whatever follows it |
| `AddrSpaces.ImageIsSegments` | src/nachos-3.4/code/userprog/addrspace.cc:126-172 | byte k of each segment is byte k of its part of the file, data over code, and every other byte is zero |
| `AddrSpaces.LoadSegment` | src/nachos-3.4/code/userprog/addrspace.cc:126-172 | in the flat memory exactly the segment's bytes become the file's, wherever the segment starts and ends in its pages; no byte outside the process's frames changes |
| `AddrSpaces.ReadMiddle` | src/nachos-3.4/code/userprog/addrspace.cc:146-147 | the loop over whole pages fills those between the first and the last |
| `AddrSpaces.ReadPage` | src/nachos-3.4/code/userprog/addrspace.cc:143-145 | reading part of the file into one page replaces exactly that stretch of the flat memory |
| `AddrSpaces.AddrSpace.constructor` | src/nachos-3.4/code/userprog/addrspace.cc:64-175 | every virtual byte is the file's byte of the segment it lies in, and zero outside; the frames were free and are distinct; no other frame is touched; the size leaves 1024 bytes for the stack |
| `AddrSpaces.AddrSpace.Free` | src/nachos-3.4/code/userprog/addrspace.cc:183-188 | exactly the frames of the space become clear |
| `Isolation.CopyRegisters` | src/nachos-3.4/code/threads/thread.cc:299-319 | all 40 registers are copied, in either direction |
| `Isolation.StepKeeps` | src/nachos-3.4/code/threads/scheduler.cc:91-135 | every store, load, switch, first run, program start and exit keeps each frame with at most one live owner, the frame map exact, page tables distinct and the page-table register right |
| `Isolation.BootOk` | src/nachos-3.4/code/userprog/addrspace.cc:64-105 | a machine with no process and all frames clear satisfies the invariant |
| `Isolation.RegisterIsOwn` | src/nachos-3.4/code/userprog/addrspace.cc:241-245 | whenever a process executes user code the machine's page-table register points to its table and to no other process's |
| `Isolation.FramesConserved` | src/nachos-3.4/code/userprog/addrspace.cc:86-105 | clear frames and the pages of live processes add up to the physical memory |
| `Isolation.StoreIsolated` | src/nachos-3.4/code/machine/translate.cc:138-169 | a store, translated by whatever table the register points to, changes no byte of another process's virtual memory |
| `Isolation.OwnStore` | src/nachos-3.4/code/machine/translate.cc:138-169 | the storing process sees exactly the bytes addressed replaced, if aligned and in its space, and nothing otherwise |
| `Isolation.LoadedIs` | src/nachos-3.4/code/machine/translate.cc:88-122 | a load returns the value at its address of the process's own flat memory |
| `Isolation.InitialRegs` | src/nachos-3.4/code/userprog/addrspace.cc:201-220 | the next program counter is 4, the stack pointer 16 below the end of the space, and every other register zero |
| `Isolation.ExecIsolated` | src/nachos-3.4/code/userprog/addrspace.cc:86-172 | loading a program changes no byte of a live process's memory |
| `Isolation.StepIsolated` | src/nachos-3.4/code/threads/scheduler.cc:91-135 | no step of another process changes a waiting process's saved registers, page table or memory; a switch to it restores its registers and points the machine to its table, unless it has never run |
| `Isolation.RunInv` | src/nachos-3.4/code/threads/scheduler.cc:91-135 | ownership of frames, conservation and the page-table register are right over every schedule |
| `Isolation.WaitingUntouched` | src/nachos-3.4/code/threads/scheduler.cc:91-135 | while a process is not running its saved registers and every byte of its memory stay put, whatever the others do; when it runs again both registers of the machine are its own |
| `Isolation.ContextRestored` | src/nachos-3.4/code/threads/scheduler.cc:91-135 | a process switched out and later in again resumes with exactly the registers, page-table register, page table and memory it left with |
| `Isolation.UnstartedKept` | src/nachos-3.4/code/threads/pcb.cc:25-29 | until a new process has set up the machine nothing reaches its memory, even if it is dispatched and preempted before that |
| `Isolation.FirstRun` | src/nachos-3.4/code/threads/pcb.cc:25-68 | a program enters user code with the initial registers, the machine set to its own table, exactly its image in memory and its stack above all segments, whatever was scheduled in between |
| `Kernels.Kernel.constructor` | src/nachos-3.4/code/userprog/addrspace.cc:86-105 | a machine with no process, every frame clear and the invariant established |
| `Kernels.InitRegisters` | src/nachos-3.4/code/userprog/addrspace.cc:201-220 | all 40 registers are zero but the next program counter and the stack pointer |
| `Kernels.Kernel.SaveUserState` | src/nachos-3.4/code/threads/thread.cc:299-303 | exactly the saved registers of that process become the machine's |
| `Kernels.Kernel.RestoreState` | src/nachos-3.4/code/threads/scheduler.cc:130-133 | the machine's registers and its page-table register become those of the process, and nothing else changes |
| `Kernels.Kernel.Switch` | src/nachos-3.4/code/threads/scheduler.cc:91-135 | is a switch step: saves the outgoing registers and, for a thread that ran before, restores registers and page table |
| `Kernels.Kernel.Begin` | src/nachos-3.4/code/threads/pcb.cc:25-29 | is the step in which a new thread sets up registers and page table |
| `Kernels.Kernel.LoadProcess` | src/nachos-3.4/code/threads/pcb.cc:51-53 | makes a new address space with the program's image over free frames, and changes nothing of any process |
| `Kernels.Kernel.Exec` | src/nachos-3.4/code/threads/pcb.cc:31-69 | is the step that starts a program in a free slot, its thread left to be dispatched |
| `Kernels.Kernel.Boot` | src/nachos-3.4/code/threads/pcb.cc:56-63 | is the step in which the first program takes over the processor |
| `Kernels.Kernel.Exit` | src/nachos-3.4/code/threads/ptable.cc:109-113 | is the step that frees exactly the process's frames and leaves the page-table register stale |
| `Kernels.Kernel.Store` | src/nachos-3.4/code/machine/translate.cc:138-169 | is a store step: the write goes through the page-table register, which is the running process's table |
| `Kernels.Kernel.Load` | src/nachos-3.4/code/machine/translate.cc:88-122 | is a load step, likewise, and returns the value in the process's own memory |
| `ConsoleOutput.StepKeeps` | src/nachos-3.4/code/threads/synchcons.cc:71-87 | every step of any writer or of the device keeps the protocol's invariant |
| `ConsoleOutput.RunInv` | src/nachos-3.4/code/machine/console.cc:114-151 | it holds throughout every interleaving |
| `ConsoleOutput.HistoryIsSteps` | src/nachos-3.4/code/threads/synchcons.cc:71-87 | every writer writes the buffer passed to its call, and the lines are taken and freed as the steps of the run say |
| `ConsoleOutput.WholeLines` | src/nachos-3.4/code/threads/synchcons.cc:71-87 | for any writers and interleaving the assertion in `PutChar` never fails, and the output is the whole buffers passed to the calls that returned, in lock order, followed by a prefix of the one passed to the call inside |
| `ConsoleOutput.BusyIsInFlight` | src/nachos-3.4/code/machine/console.cc:114-151 | the device is busy exactly while one character more was put than done, and shows one character for each put |
| `ConsoleOutput.PutCharMeetsIdleDevice` | src/nachos-3.4/code/machine/console.cc:143-151 | whenever a character is put the device is idle and every character before it is done |
| `ConsoleOutput.NeverStuck` | src/nachos-3.4/code/threads/synchcons.cc:71-87 | a reachable state with an unfinished writer always has a step of a writer or the device |
| `ConsoleOutput.OthersWait` | src/nachos-3.4/code/threads/synchcons.cc:75-85 | while one writer holds the line, other threads can only queue for it |
| `ConsoleInput.LineOfComplete` | src/nachos-3.4/code/threads/synchcons.cc:111-130 | a chunk that ends at its limit or just after its one terminator is what one read takes of a stream, whatever follows |
| `ConsoleInput.LineIs` | src/nachos-3.4/code/threads/synchcons.cc:111-130 | a read goes on past every character but a newline and control-A, as long as it has room |
| `ConsoleInput.HistoryIsSteps` | src/nachos-3.4/code/threads/synchcons.cc:95-138 | the keyboard's input, the calls in lock order with their limits, and the returns are those of the run's steps |
| `ConsoleInput.StepKeeps` | src/nachos-3.4/code/threads/synchcons.cc:95-138 | every step of any reader, of the keyboard or of a poll keeps the protocol's invariant |
| `ConsoleInput.RunInv` | src/nachos-3.4/code/machine/console.cc:86-135 | it holds throughout every interleaving |
| `ConsoleInput.ReadsAreSerial` | src/nachos-3.4/code/threads/synchcons.cc:95-138 | at most one signal is outstanding; what was typed is what the finished reads, the current read and the device took, then the rest; and the finished reads took what the calls with their limits would take one after the other in lock order |
| `ConsoleInput.ReadReturns` | src/nachos-3.4/code/threads/synchcons.cc:121-137 | the buffer holds the chunk without its terminator, padded with zeros; the result is its length, or -1 exactly for a lone control-A (or, with no room, exactly when the uninitialised variable held one) |
| `ConsoleInput.EmptyReadFails` | src/nachos-3.4/code/threads/synchcons.cc:95-138 | a run from the start in which a read of no characters returns -1 |
| `ConsoleInput.NeverStuck` | src/nachos-3.4/code/threads/synchcons.cc:107-132 | with an unfinished read and input at hand some step makes progress |
| `DiskLatency.NextPass` | src/nachos-3.4/code/machine/disk.cc:202-209 | `ModuloDiff` counts the sector times to the next pass of a sector, and no pass lies in between |
| `DiskLatency.AfterSeek` | src/nachos-3.4/code/machine/disk.cc:179-194 | the head is at the first sector boundary at or after the end of the seek; the seek is zero exactly on the same track |
| `DiskLatency.SeekIsDistance` | src/nachos-3.4/code/machine/disk.cc:179-194 | a seek takes 500 ticks for each track between the last sector asked for and the new one |
| `DiskLatency.HeadFollows` | src/nachos-3.4/code/machine/disk.cc:261-271 | over every run the disk remembers the sector of its latest request, and the buffer begins at the first sector boundary after the latest seek to another track |
| `DiskLatency.BusyUntilDone` | src/nachos-3.4/code/machine/disk.cc:115-166 | the disk is busy exactly from a request to its completion |
| `DiskLatency.WhatCanHappen` | src/nachos-3.4/code/machine/disk.cc:115-166 | a free disk takes a request at any time, a busy one completes at any time from when it is due |
| `DiskLatency.EndsWithEarliestPass` | src/nachos-3.4/code/machine/disk.cc:232-253 | without a buffer hit the request ends with the earliest full pass of the sector that begins at or after the end of the seek |
| `DiskLatency.HitIffPassed` | src/nachos-3.4/code/machine/disk.cc:239-246 | a read hits the track buffer exactly when it is on the same track and the sector fully passed the head between `bufferInit` and the request time rounded up |
| `DiskLatency.LatencyBounds` | src/nachos-3.4/code/machine/disk.cc:232-253 | every latency is at least one sector time and less than a full seek plus a turn and a sector; a new buffer start lies within the request |
| `DiskLatency.StepKeeps` | src/nachos-3.4/code/machine/disk.cc:115-166 | requests and completions keep the invariant of `bufferInit` |
| `DiskLatency.RunInv` | src/nachos-3.4/code/machine/disk.cc:115-166 | it holds over every sequence of requests |
| `DiskLatency.EveryRequest` | src/nachos-3.4/code/machine/disk.cc:115-271 | over every sequence of requests `bufferInit` is a sector boundary no later than the next request, which therefore takes one sector time on an actual hit and ends with the earliest pass otherwise |
| `DiskLatency.Disk.constructor` | src/nachos-3.4/code/machine/disk.cc:43-68 | starts at sector 0, inactive, with the buffer starting at time 0 |
| `DiskLatency.Disk.Update` | src/nachos-3.4/code/machine/disk.cc:261-271 | the remembered head position becomes the specified one |
| `DiskLatency.Disk.ReadRequest` | src/nachos-3.4/code/machine/disk.cc:115-133 | the device becomes active with the specified position and the completion due after a positive delay |
| `DiskLatency.Disk.WriteRequest` | src/nachos-3.4/code/machine/disk.cc:135-153 | the same, never from the track buffer |
| `DiskLatency.Disk.HandleInterrupt` | src/nachos-3.4/code/machine/disk.cc:161-166 | the device becomes inactive and nothing else changes |
| `Multiplier.AddExact` | src/nachos-3.4/code/machine/mipssim.cc:665-668 | the 32-bit additions with their carry test add two 64-bit numbers exactly while the sum fits |
| `Multiplier.ShiftExact` | src/nachos-3.4/code/machine/mipssim.cc:672-676 | the double-word shift doubles exactly while the result fits |
| `Multiplier.TestsSeeBits` | src/nachos-3.4/code/machine/mipssim.cc:664-677 | bit test and early exit see the multiplier's own bits, although the right shift extends the sign |
| `Multiplier.PassKeeps` | src/nachos-3.4/code/machine/mipssim.cc:663-678 | one pass of the loop extends the partial product by one bit, and the early exit leaves the whole product |
| `Multiplier.NegateExact` | src/nachos-3.4/code/machine/mipssim.cc:682-688 | complement and increment negate modulo 2^64 |
| `Multiplier.SignedProduct` | src/nachos-3.4/code/machine/mipssim.cc:643-655 | negating the product of the magnitudes when the signs differ gives the signed product |
| `Multiplier.MultLoop` | src/nachos-3.4/code/machine/mipssim.cc:657-678 | leaves the exact 64-bit unsigned product of the two bit patterns |
| `Multiplier.Mult` | src/nachos-3.4/code/machine/mipssim.cc:635-692 | `hi` and `lo` are the exact 64-bit product, two's complement or unsigned, for all operands including the smallest integer |
| `IntegerIO.OneDigit` | src/nachos-3.4/code/userprog/exception.cc:146-151 | C's remainder and quotient by ten give the last digit and what is left, for negative numbers too |
| `IntegerIO.NumeralFits` | src/nachos-3.4/code/userprog/exception.cc:145-153 | a 32-bit number has at most ten digits |
| `IntegerIO.NoLeadingZero` | src/nachos-3.4/code/userprog/exception.cc:146-151 | the digits have no leading zero, and zero is one digit |
| `IntegerIO.FillBackwards` | src/nachos-3.4/code/userprog/exception.cc:146-153 | the buffer holds the decimal numeral backwards, in at most 11 of its 13 characters |
| `IntegerIO.ReverseBuffer` | src/nachos-3.4/code/userprog/exception.cc:157-163 | the first `len` characters are reversed in place |
| `IntegerIO.PrintInt` | src/nachos-3.4/code/userprog/exception.cc:136-167 | what is written is the decimal numeral, at most 11 characters |
| `IntegerIO.ReadOneIsRead` | src/nachos-3.4/code/threads/synchcons.cc:95-138 | the one-character read that `ReadInt` uses is what a finished console read with limit one does |
| `IntegerIO.SkipLoop` | src/nachos-3.4/code/userprog/exception.cc:177-181 | skips exactly the blanks, or waits for more input |
| `IntegerIO.DigitLoop` | src/nachos-3.4/code/userprog/exception.cc:190-213 | accumulates exactly the digits at hand with 32-bit wrap-around, for either sign |
| `IntegerIO.ReadInt` | src/nachos-3.4/code/userprog/exception.cc:169-217 | result and remaining input are those of the specified parse |
| `IntegerIO.BlankSkipped` | src/nachos-3.4/code/userprog/exception.cc:177-181 | spaces, tabs and newlines before a number do not matter |
| `IntegerIO.OtherReadsZero` | src/nachos-3.4/code/userprog/exception.cc:183-188 | any other character that begins no number is consumed and reads as 0, and so does the end of input |
| `IntegerIO.LoneMinus` | src/nachos-3.4/code/userprog/exception.cc:190-201 | a minus sign without digits reads as 0 and takes the character after it |
| `IntegerIO.DigitsReadBack` | src/nachos-3.4/code/userprog/exception.cc:183-213 | any numeral that fits in 32 bits and is followed by any other character reads as its value without intermediate overflow, and is consumed with that character |
| `IntegerIO.AccumulateFolds` | src/nachos-3.4/code/userprog/exception.cc:190-213 | overflowing or not, the digits are folded up with wrap-around and guard, and consumed with the separator and nothing more |
| `IntegerIO.FoldedIs` | src/nachos-3.4/code/userprog/exception.cc:194-208 | the accumulator holds the 32 bits of the value as long as no prefix of the digits has the wrong sign in 32 bits, and keeps the wrong sign from then on |
| `IntegerIO.NumeralReadsAs` | src/nachos-3.4/code/userprog/exception.cc:183-213 | every numeral of any size reads as 0 if some prefix of its digits has the wrong sign in 32 bits and as the 32 bits of its value otherwise |
| `IntegerIO.OverflowReadsZeroIff` | src/nachos-3.4/code/userprog/exception.cc:200-212 | an overflowing numeral reads as 0 if and only if some prefix of its digits has the wrong sign in 32 bits or its value is a multiple of 2^32 |
| `IntegerIO.FitsNotCaught` | src/nachos-3.4/code/userprog/exception.cc:200-212 | a numeral that fits is never taken for an overflow |
| `IntegerIO.OverflowCaught` | src/nachos-3.4/code/userprog/exception.cc:205-212 | 2^31 reads as 0 |
| `IntegerIO.OverflowMissed` | src/nachos-3.4/code/userprog/exception.cc:205-212 | 2^32 + 5 reads as 5 |
| `IntegerIO.PrintThenRead` | src/nachos-3.4/code/userprog/exception.cc:136-217 | a printed number followed by a space, tab, newline or any other character that is no digit reads back as itself |
| `IntegerIO.RoundTrip` | src/nachos-3.4/code/userprog/exception.cc:136-217 | any list of 32-bit integers, each printed and followed by a separator of choice, reads back as the same list |

## Left out

Departures and limits of the modelled parts:

- Semaphores, ProcessRuns, ConsoleOutput, ConsoleInput: step machines over values, not classes, because a call that blocks in the middle cannot be one Dafny method. What is lost is aliasing between these objects; their lists are sequences (`Lists.List` shows that the heap list is one).
- ProcessTable.PTable.ExecUpdate: counts a child for real parents only; line 81 of `ptable.cc` also does so for the root, whose parent index is -1. The second `Open` of the same file inside `PCB::Exec` is taken to succeed as the first did, so the branch at lines 74-80, which frees a block without clearing its slot, is not taken.
- ProcessTable.PTable.JoinUpdate, ProcessTable.PTable.ExitUpdate: run without a time-slice timer, so that threads switch only where a call blocks or a thread finishes. A process control block is a record in the table's array and its semaphores are their values, since only the owner waits on them.
- FileHeaders.FileHeader.Allocate: requires that the size is at most the largest file, which the code does not check; so does FileSystems.FileSystem.Create.
- OpenFiles.OpenFile.ReadAt: requires a position that is not negative and no 32-bit overflow of position plus count, as do WriteAt, Read and Write. Operations on the disk follow one another.
- Directories.Directory.Add: the tenth byte of a name in an entry is never written and keeps what was there, as in the code.
- Interrupts.Interrupt.OneTick: the yield at its end is a result of the method; what other threads do meanwhile is the rest of the run. Handlers' delays are positive, which `Schedule` asserts.
- Interrupts.FireAllExactly: says nothing about the order in which interrupts of the same tick were scheduled, because a head that is put back goes behind its equals.
- AddrSpaces.AddrSpace.constructor: requires a valid header, segments inside the address space and the file, and enough free frames; the code asserts the first and the last and takes the others for granted. Overlapping segments are loaded as the code does, data over code.
- FileSystems.FileSystem.Mount: requires a disk formatted earlier, as the code takes for granted; FetchMap and WriteBackMap are the bitmap's transfer through its own file only.
- AddrSpaces.LoadSegment: requires the segment inside the address space and the file, which the code takes for granted.
- Kernels.Kernel.Exec, Kernels.Kernel.Boot: require a loadable program and enough free frames, as the address space does. A new thread's saved registers start as zero, where the code leaves them uninitialised; `Isolation` allows any.
- Memory.Machine.Translate: models the linear page table; the TLB path, which only the vm build has, is left out.
- DiskLatency.Disk.constructor: leaves out the backing file and its magic number.
- DiskLatency.Disk.ReadRequest, DiskLatency.Disk.WriteRequest: the bytes moved are those of `Sectors.SynchDisk`; only the timing is here.
- DiskLatency.Disk.HandleInterrupt: the call of the device's handler is the next step of the run.
- UserCopies.System2User, UserCopies.User2System: require that the bytes transferred lie inside the address space; the code ignores failing accesses.
- ConsoleInput.ReadsAreSerial: takes the keyboard not to send the byte 0xFF, which the device cannot tell from EOF.
- Multiplier.Mult, IntegerIO.ReadInt: negating the smallest integer and signed overflow are taken to wrap, as on the machine Nachos is built for.

Not modelled:

- Host system calls, sockets and UNIX files, the stub file system, and the disk's backing file: foreign input and output.
- `Lock`, `Condition`, `SynchList`, `PostOffice` and the mutual exclusion of `SynchDisk`: `Lock` is empty and `Condition::Wait` only asserts.
- The instruction switch of the simulator apart from `Mult`: mostly one-line facts, some of which differ from the manual.
- The TLB path of `Translate`, big-endian hosts and `SwapHeader`.
- The `SWITCH` assembly, thread stacks and the deletion of finished threads.
- The remaining system calls, `STable` and `Sem`, `Table`, the user programs and the tools.
- Debugging output, statistics, `List`, `Print` and the command line.

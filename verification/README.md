# A hobby x86_64 kernel and its boot library, verified

A Dafny model of the parts of the kernel (`src/`) and of the gnu-efi library it boots with (`gnu-efi/`) that
are closed algorithms over state or arithmetic, and proofs of what they are for. Paths below are relative
to the repository.

- **Kernel heap** (`HeapModel`, `HeapTheorems`, `HeapGrowth`, `HeapRuns`, `HeapCases`, `KernelHeap`): a first-fit
  allocator with headers in the arena, splitting, a pairwise merging pass and growth. The list of segments is a
  value with operations on it; class `Arena` rewrites headers in memory and refines those operations.
  `sizeof(Segment)` is 24 and words wrap at 2^64. A block's room reaches up to the next header, not to `Size`.
- **Device paths** (`DevicePath`, `DevicePathLib`, `DevicePathBuild`, `DevicePathUnpack`, `DiskSignature`): the
  byte encoding of section 9.3.1 of UEFI 2.4, the walkers, the appenders, the two-pass repacker, and the search
  for disks by signature. A path is a sequence of nodes; `Encode` gives its bytes, and bytes decode to at most
  one path. `MIN_ALIGNMENT_SIZE` is the 4 of the 32- and 64-bit x86 headers.
- **Text** (`Text`, `Glob`, `Numbers`, `Formatter`): the glob matcher and its declarative meaning, the number
  printers and the parsers that undo them, and the formatter that sends its output in chunks of fixed size
  to one of two workers.
- **Checksum and division** (`Crc`, `Division`): the table-driven CRC-32 of section 8 of RFC 1952 and the table
  header of section 4.2 of UEFI 2.4; division by 64 shift-and-subtract steps.
- **PCI enumeration** (`Pci`): four nested loops as a coroutine, over an unchanging configuration space.
- **Processes** (`Processes`, `ProcessHandler`, `Canvas`, `Compositor`, `Desktop`, `MainLoop`): the process list
  with its focus and window-moving pointers under every kind of step, incremental repainting against the full
  repaint, and the two together: which steps on the list leave the screen right.
- **Lists and protocols** (`Links`, `Protocols`): the circular list macros, and all-or-nothing installation of
  protocols (section 6.3 of UEFI 2.4) over an abstract database.

`Common` holds what several of them share.

Code that changes state step by step is imperative here too, with loops, arrays and objects; each such method
is proved against a function of its inputs, and the properties are lemmas about that function or invariants of
the object. What comes from outside is a parameter: whether an allocation is granted, what the firmware or the
PCI bus answers, what a process procedure answers to a message, and what uninitialised memory held.

Some expectations turned out not to hold of the code. Each is met with the exact condition under which the code
does what is expected, and with an input that fails where the condition does not show one:

- `Allocate` can corrupt memory in three ways and fail to return in a fourth (exactly when,
  `HeapRuns.AllocateSafeIff`): `Split` subtracts without a guard (`HeapCases.GuardFailsAfterInit`); `Reserve` cuts
  off what stands behind `LastSegment` (`HeapCases.LiveBlockCutOff`); and `Free` can absorb the segment
  `LastSegment` points at, after which `Reserve` extends a header that is not listed any more, without end
  (`HeapCases.LastSegmentForgotten`) or in the middle of a block in use (`HeapCases.HeaderInBlock`).
- `AppendDevicePath` can write past its allocation (`DevicePathBuild.TwoInstancesDoNotFit`; exactly when,
  `DevicePathBuild.FitsIff`) and, although its comment promises all of them, only the first instance of a first
  path can be read back (`DevicePathBuild.SecondInstanceLost`; exactly when that is too few,
  `DevicePathBuild.PromiseKeptIff`). An unpacked node of more than 65532 bytes gets length 0
  (`DevicePathUnpack.DecodesIff`).
- `LibReinstallProtocolInterfaces` undoes first to last, which does not restore a protocol changed twice
  (`Protocols.TwiceChangedNotRestored`; exactly when, `Protocols.RestoresIff`); `SwapListEntries` breaks a list
  in which Entry2 already stands before Entry1 (`Links.SwapListEntries`).
- `Process::SetDepth` lets the length of the list through as an index (`ProcessHandler.TooDeepTwice`; exactly when
  a new process asks for that, `ProcessHandler.TooDeepIff`).
- `SetPos` leaves the title bar of a minimized window partly off the screen (`Processes.TitleBarOffScreen`; exactly
  when, `Processes.AllowedOnScreenIff`).
- The extra pixel of a copied row can fall under a window the overlap test does not see (`Canvas.NoSpareColumn`;
  exactly when it matters, `Canvas.RenderIsRepaintIff`), and focusing or starting a window without a frame can
  leave the screen wrong without a redraw (`Desktop.RaiseIsSeen`, `Desktop.JoinIsSeen`; exactly when,
  `Desktop.RaiseKeepsIff`, `Desktop.JoinKeepsIff`); a killed window stays visible where no other covers it
  (`Desktop.GoneIsStillSeen`).

One goes the other way: `DivU64x32` also serves the divisor 2^31, which its comment and its assertion exclude
(`Division.ServesIff`).

`dafny verify dfyconfig.toml` checks the project.

## Model

| member | source | states |
|---|---|---|
| `HeapRuns.AllocateSafeIff` | src/Memory/Heap.cpp:124-204 | Main result for one call, for every well-formed heap: `Allocate(n)` returns, leaves a well-formed heap, hands out n bytes that were nobody's, keeps every other live block, and touches no header on the way, listed or not, that shares a byte with a block in use or partly with a listed header, if and only if the first fit is exact or has a header to spare; or, with no fit and `LastSegment` listed, there is room behind it and nothing in use is cut off there; or, with `LastSegment` no longer listed, the first listed header on the ladder of addresses it extends starts a free rest of the list, there is room, and every rung before it is clear of blocks in use and listed headers |
| `HeapCases.LiveBlockCutOff` | src/Memory/Heap.cpp:185-204 | `LastSegment` need not be the tail: after `Allocate(1)` and `Allocate(65343)` from `Init`, `Allocate(1)` cuts a live block off the list |
| `HeapCases.LastSegmentForgotten` | src/Memory/Heap.cpp:158-204 | `LastSegment` need not even be listed: four calls from `Init` end with `Free` absorbing the segment it points at, and then `Allocate(100000)` extends a forgotten header again and again and has no result |
| `HeapCases.HeaderInBlock` | src/Memory/Heap.cpp:158-204 | Nine calls from `Init` end with `LastSegment` pointing into a block in use; then `Allocate(62000)` comes to a good end as far as list and live blocks go, but on the way rewrites that header and writes another one inside the block |
| `HeapRuns.StaleServesIff` | src/Memory/Heap.cpp:158-204 | The last of these cases: with no fit and an unlisted `LastSegment` the caller is served exactly when the ladder can be climbed |
| `HeapRuns.RunSafe` | src/Memory/Heap.cpp:124-204 | Over every run of admissible calls, whatever is written over a forgotten header meanwhile by those whose bytes it lies in, the heap stays well formed, and its live blocks are exactly the blocks handed out and not given back, as an observer of the calls keeps them |
| `HeapRuns.BlocksNeverOverlap` | src/Memory/Heap.cpp:44-204 | From the state `Init` leaves, after any such run: any two blocks still owned have disjoint bytes (all the bytes asked for, also where the segment's own `Size` is smaller), and none touches a listed header |
| `HeapRuns.HeadersNeverInBlocks` | src/Memory/Heap.cpp:44-204 | And the next step, whichever it is, writes no header, listed or not, into a block that is owned before it or after it |
| `HeapCases.GuardFailsAfterInit` | src/Memory/Heap.cpp:21-37 | The guard matters: after `Init`, `Allocate(1)` and `Allocate(1)`, the call `Allocate(65343)` makes the subtraction of line 23 wrap, and the heap is no longer well formed |
| `HeapRuns.StepKeeps` | src/Memory/Heap.cpp:124-183 | One admissible call changes the live blocks exactly by the block it hands out or takes back |
| `HeapRuns.FreeKeeps` | src/Memory/Heap.cpp:162-183 | `Free` of a live block keeps the layout and takes exactly that block off the live set |
| `HeapRuns.AllocateLedger` | src/Memory/Heap.cpp:61-160 | Used bytes + free bytes + a header a segment + a header a split is unchanged by every admissible `Allocate`, except that growing takes out what is cut off, headers included, and adds the new segment with its header: the request rounded to 4096, or on attempt k the request and 64 (k - 1) more bytes |
| `HeapTheorems.LiveBlocksDisjoint` | src/Memory/Heap.cpp:11-37 | In a well-formed list the bytes a live block asked for touch no header and no byte of another live block |
| `HeapTheorems.PlaceSafeIff` | src/Memory/Heap.cpp:21-37 | Taking a first fit keeps the layout if and only if the segment fits exactly or is larger by at least a header, and then exactly the block handed out joins the live ones |
| `HeapTheorems.PlaceBroken` | src/Memory/Heap.cpp:21-37 | When the subtraction of `Split` wraps the result is not a tiling of the arena |
| `HeapTheorems.PlaceForm` | src/Memory/Heap.cpp:21-37 | In numbers: the request goes up to the next multiple of 64; an exact fit, and a segment whose rest would have less than 4096 bytes, is handed out whole; any other is cut, the rest starting that many bytes past its start, and keeps 24 bytes less than that as its size |
| `HeapTheorems.ReserveSafeIff` | src/Memory/Heap.cpp:185-204 | `Reserve` keeps the layout and every live block if and only if there is room behind the segment `LastSegment` points at and nothing behind it is in use or reached by its bytes |
| `HeapTheorems.ReserveForm` | src/Memory/Heap.cpp:185-204 | In numbers: the new segment starts where the one `LastSegment` points at ends, with the request taken up to the next multiple of 4096 |
| `HeapTheorems.TailCutsOffNothing` | src/Memory/Heap.cpp:185-204 | When `LastSegment` is the tail of the list nothing is cut off; only room is a question |
| `HeapGrowth.AttemptFails` | src/Memory/Heap.cpp:158-204 | Growing behind an unlisted `LastSegment`, at an address that is not listed, leaves the list and the failed search as they were, moves `LastSegment` on and tries again for 64 bytes more |
| `HeapGrowth.RungShift` | src/Memory/Heap.cpp:158-204 | So the addresses have a closed form: `LastSegment`, its end, and from then on each behind what the attempt before supplied; a failed attempt only drops the first of them |
| `HeapGrowth.ArrivingAllocates` | src/Memory/Heap.cpp:158-204 | When attempt k is the first to overwrite a listed header, the next one takes the segment written there; the headers touched are the first k + 1 rungs of the ladder |
| `HeapGrowth.NeverArriving` | src/Memory/Heap.cpp:158-204 | When none does, `Allocate` has no result |
| `HeapGrowth.BehindEverything` | src/Memory/Heap.cpp:158-204 | Behind an unlisted header that ends after every listed one none does |
| `HeapTheorems.CoalesceKeeps` | src/Memory/Heap.cpp:167-182 | The pass of `Free` keeps the layout and every live block |
| `HeapTheorems.EveryRunHalves` | src/Memory/Heap.cpp:167-182 | One pass turns each maximal run of n free segments into ceil(n/2) free segments and leaves the used segments between the runs as they are, in order |
| `HeapTheorems.WovenForm` | src/Memory/Heap.cpp:167-182 | Every list is such runs with its used segments between them |
| `HeapTheorems.RunHalves` | src/Memory/Heap.cpp:167-182 | The pass turns a single run of n free segments into ceil(n/2) free segments |
| `HeapTheorems.RunsSeparate` | src/Memory/Heap.cpp:167-182 | Runs separated by a used segment are merged independently of one another |
| `HeapTheorems.CoalesceKeepsInUse` | src/Memory/Heap.cpp:167-182 | Used segments come out of the pass with their address, size and order |
| `HeapTheorems.CoalesceTotal` | src/Memory/Heap.cpp:61-122 | The pass leaves used bytes + free bytes + a header a segment unchanged |
| `HeapTheorems.PlaceLedger` | src/Memory/Heap.cpp:21-37 | Taking a segment leaves the ledger unchanged: a split loses one header's worth of bytes, which is the header it is counted for |
| `HeapModel.ReserveSuffices` | src/Memory/Heap.cpp:131-187 | Rounding a rounded size up to 64 again asks for no more than `Reserve` supplies, with at least a header to spare or an exact fit |
| `HeapModel.RetryFits` | src/Memory/Heap.cpp:158-159 | When `Reserve` gets its segment into the list, the retried search finds it, so `Allocate` recurses once |
| `KernelHeap.Arena.Init` | src/Memory/Heap.cpp:44-59 | The one free segment of the fresh arena |
| `KernelHeap.Arena.GetUsedSize` | src/Memory/Heap.cpp:61-81 | The walk over the headers in memory returns the bytes of the used segments |
| `KernelHeap.Arena.GetFreeSize` | src/Memory/Heap.cpp:83-103 | The same for the free segments |
| `HeapTheorems.BytesExact` | src/Memory/Heap.cpp:61-103 | The two numbers kept apart: the first is the bytes and headers of the segments in use less a header for each of them, the second the same for the free ones |
| `HeapRuns.AllocateUsed` | src/Memory/Heap.cpp:61-160 | Serving a first fit raises the used bytes by the size of the segment handed out, read where its header stands |
| `HeapRuns.FreeUsed` | src/Memory/Heap.cpp:61-183 | `Free` of a live block lowers them by the size of the segment freed, and merging does not change them |
| `HeapCases.SizesAfterFirstGet` | src/Memory/Heap.cpp:39-103 | After `Init` and `Allocate(1)` the two numbers are 40 and 65448 |
| `KernelHeap.Arena.GetSegmentAmount` | src/Memory/Heap.cpp:105-122 | The number of segments |
| `KernelHeap.Arena.Split` | src/Memory/Heap.cpp:21-37 | The header rewrites of `Split` are the list operation the theorems are about, whether or not it splits, wrap-around included |
| `KernelHeap.Arena.Reserve` | src/Memory/Heap.cpp:185-204 | The two header writes of `Reserve`, from every state; where the address space has room the list becomes what the list function says, whether `LastSegment` is listed or not |
| `KernelHeap.Arena.Overwritten` | src/Memory/Heap.cpp:188-201 | What is written over the header of an unlisted `LastSegment` becomes the size `Reserve` reads there, and changes nothing else |
| `KernelHeap.LinkedToForgotten` | src/Memory/Heap.cpp:185-204 | Linking to a header that is not listed does not change the spelled list, unless the new header is written over a listed one |
| `KernelHeap.Arena.Search` | src/Memory/Heap.cpp:133-156 | The search loop takes the first free segment that is large enough, or finds none |
| `KernelHeap.Arena.Allocate` | src/Memory/Heap.cpp:124-160 | The imperative `Allocate`, recursion and all, computes the allocation the theorems are about on the list the headers spell out, from every state in which it has a result |
| `KernelHeap.Arena.Free` | src/Memory/Heap.cpp:162-183 | The imperative `Free` computes the release and the pass the theorems are about |
| `KernelHeap.Arena.Pass` | src/Memory/Heap.cpp:167-182 | The walk that merges free neighbours in pairs, on headers in memory |
| `KernelHeap.Insert` | src/Memory/Heap.cpp:30-36 | Writing a header inside a segment and linking it in changes the list in one place only |
| `KernelHeap.Absorb` | src/Memory/Heap.cpp:175-179 | Leading a header past its successor removes exactly that one from the list |
| `DevicePath.DecodeUnique` | gnu-efi/inc/efidevp.h:26-71 | Bytes spell out at most one well-formed path |
| `DevicePath.FirstNode` | gnu-efi/inc/efidevp.h:50-58 | The type, end and length macros read the first node off its bytes, and the rest of the path starts behind it |
| `DevicePath.FirstBytes` | gnu-efi/inc/efidevp.h:50-58 | Byte by byte: type, subtype, the low and the high byte of the length, and the payload; an end of the path is a node of type 0x7F or 0xFF and subtype 0xFF |
| `DevicePathLib.DevicePathInstance` | gnu-efi/lib/dpath.c:48-106 | Returns the exact byte span of the first instance and where the next one starts, or none after the last; the walk gives up after 513 nodes |
| `DevicePathLib.DevicePathInstanceCount` | gnu-efi/lib/dpath.c:108-121 | The number of instances, for paths of at most 513 nodes an instance |
| `DevicePathLib.DevicePathSize` | gnu-efi/lib/dpath.c:286-307 | The number of bytes of the whole path, the end node included |
| `DevicePathLib.SpansSum` | gnu-efi/lib/dpath.c:48-121 | The spans of the instances and four bytes for each end node sum to the size of the path |
| `DevicePathLib.InstancesWoven` | gnu-efi/lib/dpath.c:48-121 | A path is its instances, each with an end node behind it and none inside: of type 0x7F or 0xFF, of subtype 0xFF behind the last and 1 behind the others |
| `DevicePathBuild.DuplicateDevicePath` | gnu-efi/lib/dpath.c:309-334 | A fresh buffer with the same bytes, or NULL |
| `DevicePathBuild.AppendDevicePathInstance` | gnu-efi/lib/dpath.c:396-433 | The result spells the first path with its end turned into the end of an instance, then the second path |
| `DevicePathBuild.WithInstanceInstances` | gnu-efi/lib/dpath.c:396-433 | Its instances are those of the two paths in order, so the instance counts add |
| `DevicePathBuild.FitsIff` | gnu-efi/lib/dpath.c:150-182 | `AppendDevicePath` writes Src1Size + k*Src2Size bytes for k instances, which the allocation of k*Src1Size + Src2Size holds if and only if k is 1 or Src2 is not the longer path |
| `DevicePathBuild.TwoInstancesDoNotFit` | gnu-efi/lib/dpath.c:150-182 | The smallest failing case: two empty instances and a Src2 of ten bytes, 28 bytes for 26 |
| `DevicePathBuild.AppendDevicePath` | gnu-efi/lib/dpath.c:124-194 | When it fits, the result holds every instance of Src1 with a copy of Src2 and an end marker behind it; without one of the paths it is a copy of the other |
| `DevicePathBuild.AppendDevicePathBoth` | gnu-efi/lib/dpath.c:150-194 | The case of two paths: allocation, copy loop and the rewritten last end marker |
| `DevicePathBuild.CopyInstances` | gnu-efi/lib/dpath.c:157-182 | The copy loop over the instances of Src1 |
| `DevicePathBuild.CopyAt` | gnu-efi/lib/dpath.c:157-186 | What stands where in the result: for each instance of Src1 its bytes, those of Src2, and the four bytes 7F 01 04 00, or 7F FF 04 00 behind the last |
| `DevicePathBuild.ReadsAsFirst` | gnu-efi/lib/dpath.c:130-194 | What a reader makes of the result: the end node of the first copy of Src2 ends the path, so it reads as the first instance of Src1 followed by Src2 and has the instance count of Src2 |
| `DevicePathBuild.PromiseKeptIff` | gnu-efi/lib/dpath.c:130-194 | The comment promises Src2 on every instance of Src1: each instance joined with the first of Src2 and followed by its later ones; the instances read are those if and only if Src1 has one instance |
| `DevicePathBuild.SecondInstanceLost` | gnu-efi/lib/dpath.c:130-194 | The smallest failing case: two empty instances and an empty Src2, which fit the allocation, read as one instance instead of two |
| `DevicePathBuild.AppendDevicePathNode` | gnu-efi/lib/dpath.c:197-230 | The same with a single node and an end node as Src2 |
| `DevicePathUnpack.UnpackDevicePath` | gnu-efi/lib/dpath.c:336-394 | The copy, for every well-formed path: node by node the type with 0x80 set, the subtype, the length rounded up to a multiple of four and wrapped to 16 bits, the payload and zeros |
| `DevicePathUnpack.SizingPass` | gnu-efi/lib/dpath.c:348-359 | The first pass, which aligns a running total, returns the number of bytes of the aligned copy |
| `DevicePathUnpack.CopyingPass` | gnu-efi/lib/dpath.c:375-391 | The second pass, which aligns each node, fills the new path with exactly those bytes |
| `DevicePathUnpack.DecodesIff` | gnu-efi/lib/dpath.c:336-394 | The copy decodes if and only if every padded length fits 16 bits, and then to one path and no other: as many nodes, each with its type plus 0x80 if that bit was clear, the same subtype, and the payload with the zeros that take it to the next multiple of four |
| `DevicePathUnpack.UnpackedFields` | gnu-efi/lib/dpath.c:375-391 | The copy of a single node, field by field |
| `DevicePathUnpack.CopiedOnce` | gnu-efi/lib/dpath.c:375-391 | At most one sequence of bytes is the copy of a path in this sense |
| `DevicePathUnpack.LengthField` | gnu-efi/lib/dpath.c:380-381 | The length field of a node that pads to 65536 bytes reads 0 |
| `DevicePathUnpack.UnpackedTwice` | gnu-efi/lib/dpath.c:336-394 | Unpacking what is unpacked gives the same bytes |
| `DiskSignature.PathMatches` | gnu-efi/lib/hand.c:188-248 | The walk over a device path finds a match if and only if some hard drive node that does not follow another carries the signature asked for and is followed by an end node, of the path or of an instance (the comment says: of the path) |
| `DiskSignature.SignedIff` | gnu-efi/lib/hand.c:207-240 | The match read off the payloads: type 4, subtype 1, the MBR type in byte 36, the signature type in byte 37, and from byte 20 on four bytes of signature for type 1 or sixteen for type 2, with an end node of type 0x7F or 0xFF next |
| `DiskSignature.LibLocateHandleByDiskSignature` | gnu-efi/lib/hand.c:155-297 | Crossing out and collecting returns exactly the handles whose path matches, in order; none is not an error, and a failed allocation returns no handles |
| `DiskSignature.SelectedAt` | gnu-efi/lib/hand.c:281-291 | Each matching handle stands in the result behind exactly the matching handles that came before it |
| `Glob.MetaMatch` | gnu-efi/lib/str.c:325-409 | Terminates and returns TRUE exactly when the string can be cut into consecutive pieces that match the tokens of the pattern, for every pattern whose sets are closed |
| `Glob.BacktrackIsMatch` | gnu-efi/lib/str.c:342-350 | The backtracking search with shortest pieces for '*' finds a cut exactly when there is one |
| `Glob.TokensIff` | gnu-efi/lib/str.c:333-409 | The tokens of a pattern are the one way in which it is written: a '*', a '?', the characters between '[' and the next ']', and any other character as itself |
| `Glob.OneToken` | gnu-efi/lib/str.c:342-406 | A single token matches any string, one character, one of the set, or that character only |
| `Glob.MatchesConcat` | gnu-efi/lib/str.c:333-409 | A pattern followed by another matches exactly the strings that can be cut in two, each part matching its own |
| `Glob.ScanSet` | gnu-efi/lib/str.c:360-397 | The scan of a set admits a character exactly when some position of the set does, and continues behind its ']' |
| `Glob.PlainSets` | gnu-efi/lib/str.c:367-390 | For a set whose '-' stand between two other characters that means: listed, or inside a range |
| `Numbers.xtoi` | gnu-efi/lib/str.c:267-296 | Behind the spaces the longest run of hexadecimal digits is read, in either case, and the result is the number it stands for, modulo 2^64 |
| `Numbers.Atoi` | gnu-efi/lib/str.c:298-323 | The same for decimal digits |
| `Numbers.ParseMeans` | gnu-efi/lib/str.c:267-323 | Wherever the spaces and the digits end, the parser returns the positional value of the digits between, modulo 2^64 |
| `Numbers.WorthTable` | gnu-efi/lib/str.c:267-323 | A digit, in either case, is worth its place in 0123456789ABCDEF |
| `Numbers.ValueToHex` | gnu-efi/lib/print.c:1260-1288 | Writes the hexadecimal digits of every 64-bit value, NUL-terminated, as `Numbers.DigitsIff` describes them |
| `Numbers.ValueToString` | gnu-efi/lib/print.c:1291-1334 | Writes sign, digits and, if asked for, commas of every signed 64-bit value, as `Numbers.DecimalIff` and `Numbers.CommaForm` describe them |
| `Numbers.DigitsIff` | gnu-efi/lib/print.c:1257-1288 | The digits of a value are the only string of '0' to '9' (and in base 16 'A' to 'F', in upper case) with that positional value and, but for a single '0', without a leading zero |
| `Numbers.DecimalIff` | gnu-efi/lib/print.c:1291-1334 | The plain text of a signed value is the only string that is a '-' and the digits of its magnitude if it is negative, and its digits if not |
| `Numbers.DigitTable` | gnu-efi/lib/print.c:1257-1258 | The digit characters are those of the table `Hex` |
| `Numbers.RoundTrip` | gnu-efi/lib/str.c:267-323 | Reading the digits of a 64-bit value, in base 16 or 10, gives the value: `xtoi` undoes `ValueToHex` |
| `Numbers.AtoiUndoes` | gnu-efi/lib/str.c:298-323 | `Atoi` undoes `ValueToString` for every value from 0 to 2^63-1; of a negative one it reads 0 |
| `Numbers.CommaForm` | gnu-efi/lib/print.c:1291-1334 | The comma form groups the digits in threes from the right, and deleting the commas gives the plain form |
| `Numbers.WriteGrouped` | gnu-efi/lib/print.c:1322-1333 | The counter of the copy loop writes a comma exactly where a positive multiple of three digits remains |
| `Formatter.PoolPrint.SPrint` | gnu-efi/lib/print.c:313-352 | The fixed worker appends the part that fits and terminates it |
| `Formatter.PoolPrint.PoolPrintChunk` | gnu-efi/lib/print.c:355-397 | The growing worker appends all of it, with room for the NUL: slot `maxlen` is never written |
| `Formatter.PrintState.PPUTC` | gnu-efi/lib/print.c:876-896 | Adds a character, '\r' first if it is a line feed, with the position always inside the buffer |
| `Formatter.ExpandPlaces` | gnu-efi/lib/print.c:876-896 | In the expanded text each character stands further on by the number of line feeds up to and including it, each line feed has a 13 before it, and there is nothing else |
| `Formatter.PrintState.PFLUSH` | gnu-efi/lib/print.c:845-857 | Handing over a chunk does not change the stream |
| `Formatter.PrintState.PITEM` | gnu-efi/lib/print.c:914-971 | Adds an item cut to its field width and padded to it |
| `Formatter.ItemText` | gnu-efi/lib/print.c:914-971 | Length and layout of an item: at most as many characters as its field, the pad in front up to the width, and blanks up to the field, in front of all that or behind it |
| `Formatter.OutputPlain` | gnu-efi/lib/print.c:974-1255 | A plain character comes out as itself and an item as its text, between the output of what is before and what is behind |
| `Formatter.PrintState.Print` | gnu-efi/lib/print.c:974-1255 | The chunks sent add up to the unbuffered output, wherever the chunk boundaries fall |
| `Formatter.VSPrint` | gnu-efi/lib/print.c:423-463 | Into at least two characters: the longest prefix of the output that fits, NUL-terminated |
| `Formatter.VPoolPrint` | gnu-efi/lib/print.c:504-532 | With every allocation granted: the whole output, NUL-terminated, never truncated |
| `Formatter.ExpandConcat` | gnu-efi/lib/print.c:876-896 | Expanding line feeds does not depend on how the stream is cut |
| `Crc.CalculateCrc` | gnu-efi/lib/crc.c:201-218 | The table-driven loop computes the bit-by-bit reflected CRC-32 of section 8 of RFC 1952, for every byte string |
| `Crc.CheckValue` | gnu-efi/lib/crc.c:201-218 | The CRC of the nine characters 123456789 is 0xCBF43926 |
| `Crc.TableEntry` | gnu-efi/lib/crc.c:22-66 | Each of the 256 entries is its index after eight steps of the register |
| `Crc.TableStep` | gnu-efi/lib/crc.c:211-215 | Shifting by a byte and adding a table entry is feeding eight message bits |
| `Crc.SetCrcAltSize` | gnu-efi/lib/crc.c:93-116 | Seals the header: its CRC with the field taken as zero is put in the field |
| `Crc.CheckCrcAltSize` | gnu-efi/lib/crc.c:146-198 | Returns TRUE exactly when the size is in bounds and the field holds that CRC, and leaves the header as it was |
| `Crc.SealedPasses` | gnu-efi/lib/crc.c:93-198 | A sealed header passes |
| `Crc.TamperingDetected` | gnu-efi/lib/crc.c:93-198 | After sealing, any change confined to four consecutive covered bytes outside the field makes the check fail |
| `Crc.WrongFieldDetected` | gnu-efi/lib/crc.c:146-198 | So does any change of the field alone |
| `Crc.BurstDetected` | gnu-efi/lib/crc.c:201-218 | A change confined to four consecutive bytes changes the CRC |
| `Crc.FiveBytesUndetected` | gnu-efi/lib/crc.c:201-218 | Four is the most: at any place in any message there is a change of five consecutive bytes that leaves its CRC as it was |
| `Division.DivU64x32` | gnu-efi/lib/ia32/math.c:134-199 | The loop returns quotient and remainder for every 64-bit dividend and every divisor the assertions admit |
| `Division.DivideExact` | gnu-efi/lib/ia32/math.c:158-191 | The 64 steps divide exactly for every divisor up to 2^31, the remainder register never overflowing |
| `Division.ServesIff` | gnu-efi/lib/ia32/math.c:140-152 | The steps divide every 64-bit dividend by a 32-bit divisor correctly if and only if the divisor is at most 2^31, one more than comment and assertion allow |
| `Division.LargeDivisorFails` | gnu-efi/lib/ia32/math.c:158-191 | Beyond 2^31 the shifted-out bit is lost: 2^32 divided by such a divisor comes out as 0 remainder 0 |
| `Division.DivisionUnique` | gnu-efi/lib/aarch64/math.c:51-63 | Quotient and remainder are those of `/` and `%`, which the other architectures use |
| `Pci.Enumerator.Enumerate` | src/PCI/PCI.cpp:28-97 | Each call returns the first of the functions still to come and leaves the rest, or false, with all four counters back at zero |
| `Pci.Enumerator.ResetEnumeration` | src/PCI/PCI.cpp:20-26 | All functions are to come |
| `Pci.Enumerator.EnumerateBus` | src/PCI/PCI.cpp:54-88 | The device and function loops, resumed where the last call left them |
| `Pci.Enumerator.Scan` | src/AHCI/AHCI.cpp:13-15 | The calls after a reset return exactly the list of the plain four-fold nested loop, in order, and no address twice |
| `Pci.EntriesExact` | src/PCI/PCI.cpp:32-97 | That list holds exactly the findable functions, each once, in lexicographic (entry, bus, device, function) order |
| `Pci.ListedIff` | src/PCI/PCI.cpp:32-97 | What is listed, read off the configuration space: bus, device and function in range, and an ID other than 0 and 0xFFFF at offset 0x1000 (func + 8 (device + 32 bus)) of the base, wrapped to 64 bits, for the function, for function 0 of its device and for device 0 of its bus |
| `Pci.AddressFields` | src/PCI/PCI.cpp:43-70 | Bus, device and function can be read back from the address returned, which is that of a 4 KiB page in the window of its entry |
| `Pci.NoAddressTwice` | src/PCI/PCI.cpp:32-97 | If the windows of the entries lie in the address space and apart, no address is returned twice |
| `Processes.Process.PushRequest` | src/ProcessHandler/Process.cpp:87-94 | Requests are a stack of at most 16: the request is on top afterwards, unless it is SUCCESS, the process is minimized or there are 16 already; then nothing changes |
| `Processes.Process.PopRequest` | src/ProcessHandler/Process.cpp:77-85 | The latest request comes first; a minimized process keeps its requests |
| `Processes.Process.PushThenPop` | src/ProcessHandler/Process.cpp:77-94 | The two together: what was pushed is popped and the others are left as they were; a refused request is not seen |
| `Processes.Process.SetPos` | src/ProcessHandler/Process.cpp:37-65 | The process goes to the position nearest to the one asked for among those allowed for its type, and to that one if it is allowed |
| `Processes.Process.PlacedNearest` | src/ProcessHandler/Process.cpp:37-65 | Clamping each coordinate finds the nearest allowed position, in both coordinates |
| `Processes.AllowedOnScreenIff` | src/ProcessHandler/Process.cpp:37-65 | An allowed position keeps everything that is drawn, frame included, on the screen, if and only if the window is not minimized or stands a title bar's width and a raised edge from the right |
| `Processes.TitleBarOffScreen` | src/ProcessHandler/Process.cpp:37-65 | It happens: a narrow window at the right edge, minimized, stays there with half of its title bar off the screen |
| `Processes.Process.Minimize` | src/ProcessHandler/Process.cpp:111-122 | Toggles a framed window, and moves it to the nearest position allowed for its new type |
| `Processes.PlacedOnScreenIff` | src/ProcessHandler/Process.cpp:37-65 | A window that fits the screen with its frame is on it after `SetPos`, if and only if it is not minimized or did not ask for a place too far to the right |
| `Processes.MeetsIff` | src/ProcessHandler/Process.cpp:157-164 | The overlap test holds exactly if the two windows, edges included, have a point in common; a minimized one is a line of 200 pixels |
| `Processes.ContainsIff` | src/ProcessHandler/Process.cpp:149-155 | A point counts as inside a window strictly between its edges, and never inside a minimized one |
| `ProcessHandler.Handler.Run` | src/ProcessHandler/ProcessHandler.cpp:30-283 | Over every run of steps, in any order: IDs and procedures stay pairwise distinct, at most one process is fullscreen, focus and moving window are null or listed |
| `ProcessHandler.Handler.Take` | src/ProcessHandler/ProcessHandler.cpp:30-283 | Every single step keeps that, and only new processes with new IDs join the list |
| `ProcessHandler.Handler.SetDepth` | src/ProcessHandler/Process.cpp:124-142 | Exchanges the process with the one at its depth, so the list is permuted; a depth beyond the length is ignored; at a depth equal to the length, which the guard lets through, the process leaves the list and what memory holds behind it comes in |
| `ProcessHandler.MovedPlaces` | src/ProcessHandler/Process.cpp:124-142 | The process and the one at that depth change places, and no other moves |
| `ProcessHandler.PermutesIff` | src/ProcessHandler/Process.cpp:124-142 | The list is permuted if and only if it is not a listed process that asks for the length |
| `ProcessHandler.TooDeepIff` | src/ProcessHandler/ProcessHandler.cpp:199-227 | A new process asks for the new length, and so for no index, in exactly two cases: the depth it asked for was refused and its uninitialised memory held that number, or it asked for the top and is a fullscreen process that makes another one leave the list |
| `ProcessHandler.TooDeepTwice` | src/ProcessHandler/ProcessHandler.cpp:199-227 | Both cases, at concrete inputs |
| `ProcessHandler.Handler.SetFocusedProcess` | src/ProcessHandler/ProcessHandler.cpp:30-54 | The list is permuted only, and a newly focused process that is not fullscreen ends topmost; when a redraw is asked for |
| `ProcessHandler.Handler.MouseInterupt` | src/ProcessHandler/ProcessHandler.cpp:67-133 | The window being moved follows the mouse until the button is let go; otherwise exactly the topmost process under the mouse is closed, minimized, picked up or told, and focused if pressed |
| `ProcessHandler.Handler.PressTitle` | src/ProcessHandler/ProcessHandler.cpp:84-111 | Close button, minimize button, or the start of a move |
| `ProcessHandler.TitleBar` | src/ProcessHandler/ProcessHandler.cpp:84-104 | Where the title bar and its two buttons are: 30 pixels high, and the insides of two squares of 16 pixels, 8 and 36 pixels from its right end and 7 above the window |
| `ProcessHandler.Handler.TouchWindow` | src/ProcessHandler/ProcessHandler.cpp:112-126 | The process hears of the mouse and its answer is what it wants next; a press focuses it |
| `ProcessHandler.AnswerIsWanted` | src/ProcessHandler/Process.cpp:87-94 | The answer to a message is what the process wants next, over what it wanted before, unless the answer is SUCCESS, it is minimized or it has 16 requests |
| `ProcessHandler.Handler.KillProcess` | src/ProcessHandler/ProcessHandler.cpp:167-197 | The process with that ID and no other leaves the list, and no pointer to it stays behind |
| `ProcessHandler.Handler.StartProcess` | src/ProcessHandler/ProcessHandler.cpp:199-227 | A procedure runs once; a new process has a new ID, takes its depth in the list and, if fullscreen, makes the fullscreen process there was leave it; at a depth equal to the new length it is not listed, but what memory holds behind the list |
| `ProcessHandler.Handler.Construct` | src/ProcessHandler/Process.cpp:264-316 | What a new process holds, the fields the code leaves uninitialised included |
| `ProcessHandler.StartsWithDraw` | src/ProcessHandler/Process.cpp:264-316 | A new process wants to draw first, and then whatever it answered |
| `ProcessHandler.Handler.KillFullscreen` | src/ProcessHandler/ProcessHandler.cpp:212-222 | Afterwards no process is fullscreen |
| `ProcessHandler.VacatedExact` | src/ProcessHandler/ProcessHandler.cpp:212-222 | Exactly the fullscreen processes have left, and only if the new one is fullscreen |
| `ProcessHandler.Handler.KeyBoardInterupt` | src/ProcessHandler/ProcessHandler.cpp:56-65 | Only the focused process hears of a key, and its answer is what it wants next |
| `ProcessHandler.Handler.PITInterupt` | src/ProcessHandler/ProcessHandler.cpp:135-142 | Every process hears of a tick, and its answer is what it wants next |
| `ProcessHandler.Handler.Serve` | src/ProcessHandler/ProcessHandler.cpp:238-276 | One request: a kill removes the process, a clear or draw is answered and brought to the compositor |
| `ProcessHandler.ServedLatest` | src/ProcessHandler/ProcessHandler.cpp:241-271 | The latest request is served; after a clear or a draw the answer, if it is one, takes its place, and the requests below are left |
| `ProcessHandler.NothingServed` | src/ProcessHandler/ProcessHandler.cpp:241-271 | A minimized process and one without requests are left alone |
| `ProcessHandler.Handler.ServeAll` | src/ProcessHandler/ProcessHandler.cpp:236-277 | The loop serves each process once although it shrinks the list under way: those that want to be killed leave, the others stay in order, each with its latest request served |
| `ProcessHandler.StayingExact` | src/ProcessHandler/ProcessHandler.cpp:236-277 | Those that do not want to be killed stay, all of them and nobody else, and in order |
| `ProcessHandler.Handler.UpdateRequest` | src/ProcessHandler/Compositor.cpp:87-99 | A process that a later one meets asks for a redraw, any other for a buffer swap |
| `ProcessHandler.OverlappedIff` | src/ProcessHandler/Compositor.cpp:89-96 | Overlapped is exactly a process with a later one in the list that has a point in common with it |
| `ProcessHandler.Handler.Boot` | src/ProcessHandler/ProcessHandler.cpp:279-283 | An empty list is given one process, with the focus |
| `Compositor.Screen.Round` | src/ProcessHandler/Compositor.cpp:87-118 | Whatever is drawn in whatever order, at the end of a round back and front buffer are what a full bottom-to-top repaint of the windows as drawn leaves |
| `Compositor.Screen.Update` | src/ProcessHandler/Compositor.cpp:87-99 | Either a redraw is asked for or, from the full repaint of the old contents, the back buffer becomes the full repaint of the new ones |
| `Compositor.OverlappedIff` | src/ProcessHandler/Compositor.cpp:89-96 | The same on the windows as the compositor reads them |
| `Compositor.Screen.UpdateAll` | src/ProcessHandler/Compositor.cpp:101-118 | The full repaint if one was asked for, and the swap |
| `Compositor.Screen.Render` | src/ProcessHandler/Process.cpp:232-248 | The row copy, one pixel wider than the window, paints the window; one that leaves the buffer is skipped |
| `Canvas.PaintShows` | src/ProcessHandler/Process.cpp:232-248 | Row r, column x of the window comes from place r (Width + 1) + x of its own pixels and goes to place PixelsPerScanline (Y + r) + X + x of the buffer |
| `Canvas.PaintLeaves` | src/ProcessHandler/Process.cpp:232-248 | Every other pixel is left, and all of them if the window reaches beyond the visible area |
| `Compositor.MeetsIsMeet` | src/ProcessHandler/Process.cpp:157-164 | The overlap test of unframed processes is the one the theorem uses |
| `Compositor.PlacedIsCopied` | src/ProcessHandler/Process.cpp:232-238 | A process without a frame that `SetPos` has placed is not skipped |
| `Canvas.RenderIsRepaintIff` | src/ProcessHandler/Compositor.cpp:87-99 | Rendering one window again gives the full repaint, whatever pixels it shows, if and only if no later window covers a pixel it covers |
| `Canvas.OnTopIfNotMeeting` | src/ProcessHandler/Process.cpp:157-164 | With a spare column in the scan line, windows that fail the inclusive overlap test share no pixel |
| `Canvas.NoSpareColumn` | src/ProcessHandler/Process.cpp:232-248 | Without one they may: the extra pixel of a row at the right edge falls on the next line, under a window the test does not see |
| `Canvas.RepaintTwice` | src/ProcessHandler/Compositor.cpp:103-110 | Repainting a repainted buffer changes nothing |
| `MainLoop.Run` | src/ProcessHandler/ProcessHandler.cpp:30-283 | Over every run of starts, kills, mouse, key and tick interrupts and passes of the main loop, among windows without frames: as long as no step is one of two exceptions, a press that raises a window or a start that brings one up where that is seen and no redraw is due, the back buffer stays what a full repaint of the drawn windows would leave, or a redraw is due |
| `MainLoop.Take` | src/ProcessHandler/ProcessHandler.cpp:30-283 | A single step keeps that if and only if it is not one of the exceptions |
| `MainLoop.Pass` | src/ProcessHandler/ProcessHandler.cpp:236-277 | A pass of the main loop over handler and compositor together: whatever the processes ask for and draw, and whoever had not drawn before, afterwards those that did not want to be killed are listed in order, no flag is raised, and screen and back buffer are what a full repaint of them would leave |
| `MainLoop.Show` | src/ProcessHandler/Compositor.cpp:101-118 | The update that ends it, pixel by pixel: the topmost window, and what was there before where there is none |
| `MainLoop.Start` | src/ProcessHandler/ProcessHandler.cpp:199-227 | `StartProcess` leaves a window that has not drawn itself and a request to do so; the back buffer stays right if and only if a redraw is due, the window comes out on top, or nothing is seen of the one that it brings up |
| `MainLoop.Mouse` | src/ProcessHandler/ProcessHandler.cpp:67-133 | A press raises the window under the mouse without a redraw, and the back buffer stays right if and only if every pixel shows the same before and after; nothing else the mouse does is seen |
| `MainLoop.Restart` | src/ProcessHandler/ProcessHandler.cpp:279-283 | The process started when none is left |
| `MainLoop.Turn` | src/ProcessHandler/ProcessHandler.cpp:238-276 | One turn of the request loop keeps the back buffer right or asks for a redraw, whichever request is served |
| `MainLoop.Focus` | src/ProcessHandler/ProcessHandler.cpp:30-54 | `SetFocusedProcess` among windows without frames never asks for a redraw, and the back buffer stays right if and only if every pixel shows the same before and after |
| `MainLoop.Kill` | src/ProcessHandler/ProcessHandler.cpp:167-197 | `KillProcess` keeps handler and compositor in step: the back buffer stays right or is due to be repainted |
| `Desktop.KeepsIff` | src/ProcessHandler/Compositor.cpp:101-118 | A change of the list without a redraw keeps every right back buffer right if and only if each pixel the new list covers shows the same with the old one |
| `Desktop.RaiseKeepsIff` | src/ProcessHandler/ProcessHandler.cpp:30-54 | Raising a window without a redraw does so for all pixels the windows may show, if and only if nothing covers it and nothing between covers what it changes places with |
| `Desktop.RaiseIsSeen` | src/ProcessHandler/ProcessHandler.cpp:30-54 | The smallest failing case: of two windows on the same pixel the lower one is focused |
| `Desktop.JoinKeepsIff` | src/ProcessHandler/ProcessHandler.cpp:199-227 | Before it draws itself, a window that starts below the top and brings the one at its depth to the top keeps every right back buffer right, for all pixels the windows may show, if and only if no later window covers the one brought up |
| `MainLoop.JoinedIsRaised` | src/ProcessHandler/ProcessHandler.cpp:224-226 | What `StartProcess` does to the windows: the new one on top, or at its depth with the one there brought to the top |
| `Desktop.JoinIsSeen` | src/ProcessHandler/ProcessHandler.cpp:199-227 | A list for which it is not |
| `Desktop.DrawnOnTop` | src/ProcessHandler/Compositor.cpp:87-99 | A window that no later one covers, rendered with what it has drawn, for the first time or not, keeps the back buffer right |
| `Desktop.GoneIsStillSeen` | src/ProcessHandler/Compositor.cpp:101-118 | Nothing clears the back buffer: after a kill and the full repaint, the killed window is still seen at exactly the pixels where it was and no other window is |
| `Desktop.RepaintTopmost` | src/ProcessHandler/Compositor.cpp:101-110 | The full repaint, pixel by pixel: the topmost window there, and the old pixel where there is none |
| `MainLoop.OverlapAgrees` | src/ProcessHandler/Compositor.cpp:87-99 | The overlap test of the handler on its processes is that of the compositor on their views |
| `MainLoop.PlacedIsCopyable` | src/ProcessHandler/Process.cpp:232-248 | A window without a frame that `SetPos` has placed lies in the buffer and is not skipped, if a scan line has a column to spare |
| `Links.InitializeListHead` | gnu-efi/inc/efilink.h:43-45 | An empty list |
| `Links.IsListEmpty` | gnu-efi/inc/efilink.h:54-55 | True exactly for the empty list |
| `Links.InsertTailList` | gnu-efi/inc/efilink.h:90-98 | Appends, keeping one cycle of mutually inverse links |
| `Links.InsertHeadList` | gnu-efi/inc/efilink.h:108-116 | Prepends |
| `Links.RemoveEntryList` | gnu-efi/inc/efilink.h:64-70 | Deletes; the entry keeps its own links |
| `Links.SwapListEntries` | gnu-efi/inc/efilink.h:126-139 | Puts Entry2 directly before Entry1 if and only if it was not there already; if it was, the ring is broken |
| `Links.Rotate` | gnu-efi/inc/efilink.h:43-45 | A ring can be read from any of its entries on |
| `Protocols.LibInstallProtocolInterfaces` | gnu-efi/lib/hand.c:437-517 | Installs every interface or none: a failure at any position restores the database |
| `Protocols.AddThenRemove` | gnu-efi/lib/hand.c:497-509 | Undoing in the order of installation restores the interfaces, since protocols installed together are distinct |
| `Protocols.LibReinstallProtocolInterfaces` | gnu-efi/lib/hand.c:558-636 | Reinstalls every interface, or undoes the changes made, first to last |
| `Protocols.RestoresIff` | gnu-efi/lib/hand.c:585-628 | A failure at any position is undone if and only if no protocol is really changed twice among the changes before it |
| `Protocols.DistinctIsCalm` | gnu-efi/lib/hand.c:616-628 | Changes of pairwise distinct protocols never change one twice, so they are always undone |
| `Protocols.TwiceChangedNotRestored` | gnu-efi/lib/hand.c:616-628 | Changing one interface from 1 to 2 and from 2 to 3 and then failing leaves it changed |

## Left out

- KernelHeap.Arena.Allocate: mapping pages always succeeds. Headers are written as wholes, so where one would partly overlap a listed header the class does not compute what the code does; `HeapRuns.Served` excludes those calls. Where the arena would have to leave the 64-bit address space there is no result and nothing further is said.
- HeapRuns.RunSafe: users write only into the bytes they asked for; what they write over a forgotten header is any step `Overwrite`, and their own data are not tracked.
- Glob.MetaMatch: patterns with an unterminated `[` are excluded; the code then reads behind the end of the pattern.
- Glob.PlainSets: a `-` at the start or end of a set, or next to another `-`, has the meaning the scan gives it, not a declarative one.
- Pci.Enumerator.Enumerate: more than 255 entries are excluded, since the 8-bit counter then never reaches the end. As in the code the last bus of an entry is not searched, although the table names it inclusively; mapping pages is left out.
- Formatter.VSPrint: a buffer size of 0 or 1 bytes, which the code turns into a huge limit (the comment says: no limit), and the flag that makes a buffer of one character come out without a NUL are not given a meaning beyond what the code does.
- Formatter.PrintState.Print: parsing of the format string, attributes and console output are left out; a format is given as the characters and items it produces.
- Formatter.VPoolPrint: when an allocation fails nothing is promised about the text that is returned.
- Numbers.ValueToString: an unsigned value from 2^63 on is printed as the negative number with the same bits, since the parameter is signed.
- Crc.CalculateCrc: the accumulator is kept in 32 bits; the 64-bit one of the source never holds more.
- DevicePathBuild.AppendDevicePath: calls whose result does not fit the allocation are excluded, and so are two missing paths; the debug assertions about unpacked paths are left out.
- DevicePathBuild.AppendDevicePathInstance: a failed allocation with a first path given is excluded, as the code asserts against it.
- DevicePathLib.DevicePathInstanceCount: for a longer instance the walk stops at its 514th node, as `DevicePathLib.DevicePathInstance` states, and the count has no meaning.
- DiskSignature.LibLocateHandleByDiskSignature: growing the buffer of block devices and asking for their paths are parameters; hard drive nodes are taken to have all their fields.
- Protocols.LibInstallProtocolInterfaces: the firmware never refuses to remove what was just installed; refused undo calls of `LibReinstallProtocolInterfaces` are in the model and excluded from its promise.
- Links.RemoveEntryList: the debug form that also overwrites the entry's own links is left out.
- ProcessHandler.Handler.Run: steps are atomic and procedures do not call back into the handler; resets are left out (`KillAllProcesses` clears neither pointer), as are system commands, start as minimized (a kernel panic) and the wrap-around of the 64-bit ID counter. `STL::List` is a sequence.
- ProcessHandler.Handler.ServeAll: the pixels a procedure draws when served are not tracked; `MainLoop.Pass` has them.
- Processes.Process.SetPos: coordinates do not wrap at 32 bits.
- Compositor.Screen.Round: framed and minimized windows are excluded, since the overlap test ignores title bars; changes of the list are in `MainLoop.Run`, and the cursor is not drawn.
- MainLoop.Run: windows without frames only, none of which reaches the last column of a scan line; a procedure changes its pixels only when it is asked to clear or draw, and a new process keeps the window its procedure asked for.
- Compositor.Screen.Update: processes are handed over as values; the compositor does not change them.
- Division.DivU64x32: the half-word shift and multiply routines are single expressions in the form that is compiled and are left out.
- Port input and output, interrupts, paging, graphics, fonts, keyboard, ACPI tables, AHCI, file loading, the programs and the text commands: device effects or user interface with no further logic.
- `FloatToString`, `TimeToString`, device path texts, `LibDuplicateDevicePathInstance`, `ValidMBR`, ELF relocators: floating point or easy members.

# StarOS, modelled and proved

A Dafny model of the algorithms inside the StarOS kernel that carry state: the heap, the package manager, the
drawing loops, the network receive path, the file store, the archive and body decoders and the formatter. What the
C code does step by step is imperative Dafny here (classes, arrays, loops) and is proved against specification
functions; what those functions promise is proved as lemmas over all inputs or all runs.

`dafny verify dfyconfig.toml` checks everything; no proof needs automatic induction (`--manual-lemma-induction`). One
module per file:

| module | of the kernel | central results |
|---|---|---|
| `HeapLayout`, `Heap` | `mm/kmalloc.c` | the block list in memory tiles the heap after every run; the live set determines the whole heap; freeing everything restores it |
| `Resolver`, `Packages`, `Lines` | `apps/pkg/pkg.c`, `vfs_readline` | the recursive installer never completes a cycle, keeps the set dependency-closed and marks only what was downloaded; over every history the database file is one line for each installed package |
| `Raster` | `gui/src/framebuffer.c` | the line and circle loops paint exactly the pixels nearest to the ideal line and circle, cell by cell of the buffer |
| `NicRing` | `drivers/net/ne2000.c` | every interleaving of chip and driver, frames arriving in the middle of a reception included, is first in, first out, byte for byte |
| `Tcp`, `Checksum`, `Arp` | `drivers/net/net.c` | any number of in-order peers interleaved on the socket table: each stream is delivered and acknowledged exactly; RFC 1071; the bounded cache |
| `Vfs`, `Files`, `Growth` | `fs/vfs.c` | any sequence of opens, seeks, writes, reads, unlinks and mkdirs is the run of a map from paths to bytes; when the growth loop ends |
| `Inflate`, `Fields`, `Tar`, `Ar` | `apps/deb_installer/deb_installer.c` | bit reader, stored gzip blocks, overlapping match copy; ar and tar undo any writer; when the tar walk ends |
| `Http` | `drivers/net/http.c` | dechunking and entity decoding undo their encodings, and every size and entity is read as what it spells |
| `Format` | `kernel/kprintf.c` | the printer refines a reference reading of format strings; every directive is read as written, every field is filled where its flags say, numbers read back |
| `Numerals`, `Arithmetic`, `Types` | | digit lists, arithmetic and machine integers shared by the others |

Where the code and what it promises part ways, the code is kept and the exact condition is proved:

* A request above 2^32 - 8 bytes is rounded to zero, so the block handed out is smaller than asked
  (`HeapLayout.BlockHoldsRequest`).
* The installer tests its depth before it looks whether a package is installed. Success in whatever order the
  dependencies are listed is equivalent to every dependency path being known and at most nine packages long, an
  installed package at its end included (`Resolver.FitsIffEveryOrderInstalls`); in one particular order a longer path
  can still succeed when an earlier dependency has installed its end. Removing a package does not look at its
  dependents (`Resolver.RemovalKeepsClosed`).
* A TCP data segment is acknowledged whether or not it fits the receive ring, and kept exactly when it fits
  (`Tcp.AckedDataKeptOnlyIfItFits`); data on a SYN-ACK is misacknowledged (`Tcp.SynAckAcknowledgedRightOnlyWithoutData`);
  a repeated segment leaves the ring alone exactly when it closed the connection or does not fit
  (`Tcp.DuplicateIgnoredOnlyWithoutRoom`).
* `vfs_write` adds position and length in 32 bits: with memory granted its growth loop ends exactly when the wrapped sum
  is at most `MAX_DATA` (`Growth.GrowthEndsIff`), and it ends with the write past the buffer exactly when the sum wrapped
  (`Growth.PastBuffer`). `vfs_read` behind the end of a file returns zeros from the buffer (`Vfs.Store.Read`).
* Full ustar name and prefix fields come out wrong but for one exact case (`Tar.PathRecovered`), as do 16-byte ar names
  (`Ar.NameRecovered`). The tar walk never ends exactly when a header it has visited comes back
  (`Tar.NeverEndsIffHeaderReturns`); it ends when no size carries an offset past 2^32 (`Tar.EndsWithoutCarry`).
* A chunk extension is read as part of the chunk size; it comes out right exactly when the difference vanishes in 32 bits
  (`Http.ExtensionReadsRight`).

## Model

| member | source | states |
|---|---|---|
| HeapLayout.RoundingCoversRequest | mm/kmalloc.c:37 | the 32-bit rounding to 8 covers the request exactly up to 2^32 - 8, and above that yields 0 |
| HeapLayout.FirstFit | mm/kmalloc.c:38-60 | the block found is free and large enough and every earlier one is not |
| HeapLayout.LivePayloadsDisjoint | mm/kmalloc.c:35-62 | two live payloads never overlap, lie inside the heap and are 8-aligned |
| HeapLayout.CarveKeepsLayout | mm/kmalloc.c:42-53 | splitting and taking a block keeps exact tiling, alignment and no two free neighbours |
| HeapLayout.CarveAddsLive | mm/kmalloc.c:42-57 | an allocation adds exactly one live payload: as large as the rounded request, or the whole block where the rest is not worth a header |
| HeapLayout.ReleaseKeepsLayout | mm/kmalloc.c:66-84 | freeing with both merges keeps tiling, alignment and no two free neighbours |
| HeapLayout.ReleaseDropsLive | mm/kmalloc.c:66-84 | freeing removes exactly the freed payload from the live ones |
| HeapLayout.LiveSetDeterminesHeap | mm/kmalloc.c:42-51 | two heaps over one range with the same live payloads have the same block list: coalescing leaves no trace of history |
| HeapLayout.Conservation | mm/kmalloc.c:17-98 | used bytes, free bytes and 16 per block always add up to the heap size |
| HeapLayout.CarveSum | mm/kmalloc.c:53 | an allocation raises the used bytes by the size of the block taken |
| HeapLayout.ReleaseSum | mm/kmalloc.c:71 | a release lowers the used bytes by the size of the block freed, merges included |
| HeapLayout.EveryRunKeepsLayout | mm/kmalloc.c:35-96 | every state any sequence of kmalloc, kfree and krealloc calls reaches is well-formed |
| HeapLayout.UnnamedStaysLive | mm/kmalloc.c:35-96 | an operation on other blocks leaves a live block live, at its address and size |
| HeapLayout.ResizeLive | mm/kmalloc.c:86-96 | a block that grows into another one leaves the live set and the new payload takes its place |
| HeapLayout.FreesDropLive | mm/kmalloc.c:66-84 | freeing a list of pointers, in any order, with repetitions and with pointers to no live block, leaves exactly the other live payloads |
| HeapLayout.FreeingAllRestoresHeap | mm/kmalloc.c:66-84 | after any run, freeing all live blocks in any order gives back the single initial free block |
| HeapLayout.FreeUndoesAlloc | mm/kmalloc.c:35-84 | freeing what was just allocated restores the block list exactly |
| HeapLayout.AllocFailsOnlyWhenFull | mm/kmalloc.c:39-61 | an allocation fails exactly when no free block holds the rounded request |
| HeapLayout.FirstRequest | mm/kmalloc.c:20-62 | on a heap nothing was taken from, a request succeeds exactly when its rounding leaves room for one header |
| HeapLayout.BlockHoldsRequest | mm/kmalloc.c:37-58 | the block handed out holds the request exactly for requests up to 2^32 - 8 |
| Heap.InitBaseAligned | mm/kmalloc.c:21-22 | the heap starts page-aligned, not below 2 MB, less than a page above the requested base; its address is NULL exactly for a base in the last page |
| Heap.SplitHolds | mm/kmalloc.c:42-51 | the four header writes of a split, seen cell by cell, keep memory and block list in step and disturb no live payload |
| Heap.JoinHolds | mm/kmalloc.c:73-83 | the same for the header writes of a merge |
| Heap.TagMeansLive | mm/kmalloc.c:69 | kfree's tag test recognises exactly the headers of live blocks, as long as no payload spells a header: a cell is a byte or a whole header |
| Heap.PayloadWriteHolds | mm/kmalloc.c:54-57 | bytes written inside a live payload leave every header, link and tag as it was |
| Heap.Heap.InitAt | mm/kmalloc.c:20-29 | one free block over exactly the size asked for, or over 8 MB for less than 64 KB, unless the address wrapped to NULL |
| Heap.Heap.FindFree | mm/kmalloc.c:38-60 | walking the linked headers finds the first fitting block of the list, or none |
| Heap.Heap.Kmalloc | mm/kmalloc.c:35-62 | first fit: the new block list, the pointer returned, one live payload more, zeroed to its end, every byte of the other live payloads unchanged, NULL exactly when nothing fits |
| Heap.Heap.Kfree | mm/kmalloc.c:66-84 | where no payload spells a header, exactly a live pointer has an effect: it leaves the live set, and every byte of the other live payloads stays |
| Heap.Heap.Krealloc | mm/kmalloc.c:86-96 | same pointer when large enough; otherwise the old bytes followed by zeros in the first fitting block, and the old block no longer live; on failure memory is unchanged; `outside` exactly when the block allocated is smaller than the old one, only for sizes above 2^32 - 8 |
| Heap.Heap.KmemUsed | mm/kmalloc.c:98 | the counter is the sum of the used sizes, and used + free + headers is the heap size |
| Heap.Heap.Perform | mm/kmalloc.c:35-96 | any run of calls and client writes on the real memory is the run of the block list, and a live block that no operation names stays live with every byte it holds |
| Heap.Heap.Store | mm/kmalloc.c:54-57 | a client's write inside its own live payload keeps headers and block list |
| Heap.RegrownBytes | mm/kmalloc.c:90-95 | after allocate, copy and free the new block holds the old bytes and then zeros, also when the freed block was merged |
| Resolver.SearchIsFirst | apps/pkg/pkg.c:297-305 | the first entry of that name, or none when no entry has it |
| Resolver.InstallExact | apps/pkg/pkg.c:325-356 | the installed set afterwards is the old one plus exactly the packages marked, and success means the package is in it |
| Resolver.StuckFails | apps/pkg/pkg.c:325-339 | a package of a group that waits for itself fails at any depth without marking or downloading anything |
| Resolver.ReentrantCallFails | apps/pkg/pkg.c:325-339 | a call for a package still being installed higher on the stack fails and changes nothing |
| Resolver.InstallSound | apps/pkg/pkg.c:325-356 | over every run: dependencies are marked before dependents, nothing installed is marked, no package of the stack above is ever marked |
| Resolver.PkgInstallSound | apps/pkg/pkg.c:358-366 | the same for pkg_install, which on success leaves the package installed |
| Resolver.MarkedOnlyAfterDownload | apps/pkg/pkg.c:341-355 | over every run: a package is marked only after a download of its own succeeded, and a download that fails ends the call with a failure, nothing more being tried |
| Resolver.EveryStateClosed | apps/pkg/pkg.c:325-366 | from a dependency-closed set every intermediate state stays closed, also of runs that fail |
| Resolver.RemovalKeepsClosed | apps/pkg/pkg.c:369-400 | a removal keeps the set closed exactly when no other installed package of the catalogue depends on the removed one |
| Resolver.NoPackageMarkedTwice | apps/pkg/pkg.c:325-356 | no package is marked twice in a run, and none that was installed before |
| Resolver.CycleNeverInstalled | apps/pkg/pkg.c:325-366 | a cycle with no member installed stays uninstalled whatever is asked for, and asking for a member fails |
| Resolver.ShallowInstallSucceeds | apps/pkg/pkg.c:325-366 | with all dependencies known, downloads succeeding and no path above nine packages, installation succeeds (one half of FitsIffEveryOrderInstalls) |
| Resolver.OnlyDownloadsFail | apps/pkg/pkg.c:325-366 | with every path known and at most nine packages long, a call succeeds exactly when each of its downloads does |
| Resolver.FitsIffEveryOrderInstalls | apps/pkg/pkg.c:325-366 | with downloads succeeding, installation succeeds for every permutation of the dependency lists exactly when every path is known and at most nine packages long |
| Resolver.WorstFails | apps/pkg/pkg.c:326-338 | otherwise listing the worst dependency first makes it fail without marking anything |
| Resolver.LongPathFails | apps/pkg/pkg.c:326-330 | a longer chain of packages, each waiting for the next, fails and changes nothing, even if its last package is installed |
| Resolver.ChainInstallsIff | apps/pkg/pkg.c:326 | of n packages each depending on the next the first can be installed exactly when n is at most nine |
| Packages.LineForOk | apps/pkg/pkg.c:189-191 | the line written is the name, a tab, the version, a tab, the stamp and a newline, and it is found under its name |
| Packages.LineReadsBack | apps/pkg/pkg.c:189-219 | trimmed as the readers do, a written line gives back name and version |
| Packages.MarkedAgrees | apps/pkg/pkg.c:184-200 | appending a line and setting the flags keeps flags and file in agreement |
| Packages.KeptKeys | apps/pkg/pkg.c:379-394 | the rewritten file keeps every other line's name in order and no line of the removed name |
| Packages.KeptHeads | apps/pkg/pkg.c:379-394 | after a removal a name heads a line exactly when it did before and is not the removed one |
| Packages.KeptOfWritten | apps/pkg/pkg.c:379-394 | removing from a file of written lines leaves exactly the lines of the other packages, byte for byte, in order |
| Packages.LoadedAgrees | apps/pkg/pkg.c:208-223 | flags set from the file on fresh entries agree with the file |
| Packages.StoredReadsBack | apps/pkg/pkg.c:211-213 | the kernel's line reader reads the database back as the lines that were written |
| Packages.FlagsFollowFile | apps/pkg/pkg.c:184-223 | helper of Serve: the class invariant, read through the kernel's own line reader |
| Packages.Manager.IsInstalled | apps/pkg/pkg.c:202-206 | the first entry's flag tells whether the name is installed |
| Packages.Manager.MarkInstalled | apps/pkg/pkg.c:184-200 | one line appended, every entry of the name updated, agreement kept |
| Packages.Manager.InstallSingle | apps/pkg/pkg.c:325-356 | the recursive call on the real cache and file does what the resolver says and appends exactly the lines of the packages marked |
| Packages.Manager.PkgInstall | apps/pkg/pkg.c:358-366 | the same for the whole call; it returns 0 only if every download it tried succeeded |
| Packages.Manager.PkgRemove | apps/pkg/pkg.c:369-400 | -1 and no change for a package not installed; otherwise the file loses that name's lines and the flags follow; `outside` exactly when more than 256 lines would be kept |
| Packages.Manager.PkgUpdate | apps/pkg/pkg.c:263-294 | the replaced cache gets its flags from the file |
| Packages.Manager.DbLoad | apps/pkg/pkg.c:208-223 | reading line by line flags exactly the entries whose name heads a line |
| Packages.Serve | apps/pkg/pkg.c:184-400 | over any history of install, remove and update, up to a removal that overflows the line table, the file is exactly one line for each package installed and not removed since, in the order of installation, none twice, and a flag is true exactly when its name is among them |
| Lines.ReadLine | fs/vfs.c:163-173 | one line up to its newline, the buffer's end or the end of the text, and the new position |
| Lines.LineEndIs | fs/vfs.c:163-173 | a line ends behind the first newline, as far as room and text reach |
| Lines.ReadBack | fs/vfs.c:163-173 | a file made of stored lines is read back as exactly those lines |
| Lines.TrimBuffer | apps/pkg/pkg.c:34-40 | trimming in place leaves the text without trailing blanks and leading spaces, terminated |
| Lines.TrimIs | apps/pkg/pkg.c:34-40 | cut are exactly the spaces in front and the spaces, newlines and carriage returns behind |
| Lines.TrimIdempotent | apps/pkg/pkg.c:34-40 | trimming a trimmed line with its newline put back changes nothing |
| Lines.KeyIs | apps/pkg/pkg.c:213-215 | a line is headed by its trimmed text before the first tab, and by nothing without a tab |
| Lines.KeyOfWritten | apps/pkg/pkg.c:213-219 | a line written for a name is found under that name |
| Lines.KeyOfTrimmed | apps/pkg/pkg.c:382-386 | the trimmed line written back keeps its name |
| Raster.RoundDivIsRounded | gui/src/framebuffer.c:150-152 | the rounded share is the only integer within half, a half going down |
| Raster.LineEndpoints | gui/src/framebuffer.c:143-154 | the line starts and ends exactly at its two points |
| Raster.LineWithinHalfPixel | gui/src/framebuffer.c:150-152 | every plotted point lies within half a pixel of the ideal line on the minor axis, in all octants |
| Raster.LinePixelIff | gui/src/framebuffer.c:143-154 | a pixel belongs to a line exactly when it lies between the ends and on the minor axis within half a pixel of the ideal line, of two equally near ones the one nearer to the start |
| Raster.LineStep | gui/src/framebuffer.c:150-152 | the two tests on err move each axis exactly to its next rounded share |
| Raster.LineLoopEnds | gui/src/framebuffer.c:149 | the end point is reached after exactly max(dx, dy) steps and not before |
| Raster.NearestRootUnique | gui/src/framebuffer.c:155-165 | at most one integer is nearest to the root |
| Raster.OctantsExtend | gui/src/framebuffer.c:158-161 | the eight reflections are exactly the circle pixels with that smaller offset |
| Raster.CircleStep | gui/src/framebuffer.c:162-163 | the update keeps d = 2(x+1)^2 + y^2 + (y-1)^2 - 2r^2 and y the integer nearest to sqrt(r^2 - x^2) |
| Raster.CircleDone | gui/src/framebuffer.c:157 | once y is below x no circle pixel is left |
| Raster.CircleBounds | gui/src/framebuffer.c:156-162 | the decision variable stays between -4r and 4r + 3 |
| Raster.CirclePixelIff | gui/src/framebuffer.c:155-165 | a pixel belongs to a circle exactly when its longer offset is within half a pixel of the circle at its shorter one |
| Raster.Screen.ScanOrder | gui/src/framebuffer.c:14 | the first pixel is the first cell, its right neighbour the next cell, the pixel below one pitch further |
| Raster.Screen.ShownCell | gui/src/framebuffer.c:14 | a figure shown puts its colour into the cell y * pitch + x of exactly its pixels |
| Raster.Screen.OtherCells | gui/src/framebuffer.c:14 | every cell that changes is that of a pixel of the figure |
| Raster.Framebuffer.Pixel | gui/src/framebuffer.c:13-15 | the cell y * pitch + x is set exactly when (x, y) is on screen, and no other cell changes |
| Raster.Framebuffer.Line | gui/src/framebuffer.c:143-154 | fb_line ends and paints exactly the rounded points of the segment, clipped, and nothing else |
| Raster.Framebuffer.Rect | gui/src/framebuffer.c:21-25 | fb_rect paints exactly the rectangle, clipped, and nothing for a side that is not positive |
| Raster.Framebuffer.Circle | gui/src/framebuffer.c:155-165 | fb_circle ends and paints exactly the pixels whose larger offset is nearest to the root for the smaller one |
| NicRing.FramesAppend | drivers/net/ne2000.c:67-70 | a frame placed behind others continues the queue |
| NicRing.LinAdvance | drivers/net/ne2000.c:67-70 | moving the start forward drops pages at the front and brings them back at the end |
| NicRing.WindowIsLin | drivers/net/ne2000.c:283-294 | the one or two reads of the driver cover the frame's bytes, also across the ring end |
| NicRing.RecvKeeps | drivers/net/ne2000.c:296-299 | taking the first frame leaves the others in place, seen from the next page |
| NicRing.DepositKeeps | drivers/net/ne2000.c:67-70 | a frame written to free pages goes behind the frames already there and disturbs none |
| NicRing.Nic.ReadMem | drivers/net/ne2000.c:88-106 | word-wise DMA delivers exactly the bytes asked for, odd lengths included |
| NicRing.Nic.ReadData | drivers/net/ne2000.c:283-294 | the frame's data, in two reads when it wraps |
| NicRing.Nic.Fetch | drivers/net/ne2000.c:261-298 | the part between reading CURR and writing BNRY, on any ring contents and with any value read: under a good header the bytes behind it, byte by byte at their addresses, across 0x8000 too, cut to max, and the page before the next one; under a bad one the page before that value; or nothing |
| NicRing.Nic.FetchFrame | drivers/net/ne2000.c:261-298 | on a ring filled by the chip, also since CURR was read: the oldest frame byte for byte, if a frame was seen at all |
| NicRing.Nic.ReleaseFrame | drivers/net/ne2000.c:296-299 | writing BNRY takes exactly the oldest frame out |
| NicRing.Nic.Recv | drivers/net/ne2000.c:253-302 | on any ring contents: nothing, the frame under a good header cut to max, or a ring drained up to CURR |
| NicRing.Nic.RecvFrame | drivers/net/ne2000.c:253-302 | on a ring filled by the chip: the oldest frame byte for byte, and the queue without it |
| NicRing.Nic.constructor | drivers/net/ne2000.c:203-217 | the registers as set up describe an empty ring |
| NicRing.Nic.Deposit | drivers/net/ne2000.c:67-70 | the chip stores a frame, with any sufficient page count and bytes of its own behind the data, exactly when it fits without overtaking the reader |
| NicRing.RingIsFifo | drivers/net/ne2000.c:253-302 | helper of Interleave: the specification's queue is first in, first out |
| NicRing.ReceptionDelivers | drivers/net/ne2000.c:253-302 | a reception begun with a frame pending delivers that frame, cut to its room, and takes exactly it out, whatever arrives meanwhile |
| NicRing.FullReads | drivers/net/ne2000.c:280-301 | with room for any frame in every reception and no empty frames, those that deliver something deliver exactly the frames taken, and the one fetched last |
| NicRing.Interleave | drivers/net/ne2000.c:253-302 | on the real ring, for any sequence of deposits, reads of CURR, fetches with any room and writes of BNRY: every reception delivers the oldest pending frame byte for byte, cut to its room, and frames taken plus frames pending are the frames accepted in order |
| Tcp.RingPush | drivers/net/net.c:156-158 | storing at the head appends one byte, also across the buffer's end |
| Tcp.RingPop | drivers/net/net.c:517-520 | reading at the tail removes the oldest byte |
| Tcp.Sock.Avail | drivers/net/net.c:155 | the number of bytes between tail and head, never the full buffer |
| Tcp.Sock.Push | drivers/net/net.c:156-158 | the pushed bytes go behind those already in the ring |
| Tcp.Sock.Accept | drivers/net/net.c:214-245 | one segment on a socket, field by field: state, numbers, remote port, ring and acknowledgements, RST and FIN in any state included |
| Tcp.HandleByField | drivers/net/net.c:222-242 | the same of the specification, whose branches follow the code |
| Tcp.Sock.Recv | drivers/net/net.c:510-522 | the oldest bytes leave the ring, as many as there are up to max |
| Tcp.TcpHandle | drivers/net/net.c:214-245 | the first TCP socket whose local port is the destination port, and whose address is unset or the sender's, takes the segment; no other changes, and without one nothing is acknowledged |
| Tcp.SegmentKeepsStep | drivers/net/net.c:222-241 | an in-order segment loses and repeats nothing, and the acknowledgements are exactly those owed |
| Tcp.StreamIsDelivered | drivers/net/net.c:214-245 | over every session: bytes read plus ring are the peer's payload, and acknowledgements are IRS + 1 + bytes, one more after FIN |
| Tcp.Play | drivers/net/net.c:510-522 | one event on the real socket is one step of the session |
| Tcp.Session | drivers/net/net.c:214-245 | a whole session on the real socket: bytes handed out plus bytes in the buffer are the peer's payload, and the acknowledgements are those owed |
| Tcp.TableSession | drivers/net/net.c:214-245 | any number of in-order peers on one socket table, their segments, the clients' reads and segments for nobody interleaved: each client gets exactly its own peer's payload, and each peer the acknowledgements it is owed |
| Tcp.AckedDataKeptOnlyIfItFits | drivers/net/net.c:231-236 | a data segment is always acknowledged but kept exactly when it fits |
| Tcp.SynAckAcknowledgedRightOnlyWithoutData | drivers/net/net.c:222-236 | data on the SYN-ACK makes the acknowledgement one too small; it is right exactly without data |
| Tcp.DuplicateIgnoredOnlyWithoutRoom | drivers/net/net.c:231-237 | a repeated data segment leaves the ring as it is exactly when it closed the connection or does not fit; otherwise its bytes are there twice |
| Checksum.IpCksum | drivers/net/net.c:39-46 | the loops end and return the complement of the one's complement of the 32-bit sum, which up to 131072 bytes is the full sum |
| Checksum.WrappedSumRightIff | drivers/net/net.c:41-44 | a sum that wraps gives the right checksum exactly when it wraps a multiple of 65535 times and leaves something; the code's one caller, at net.c:185, passes 20 bytes and never gets there |
| Checksum.FoldKeeps | drivers/net/net.c:44 | folding carries keeps the sum modulo 65535 and its being zero |
| Checksum.WordsSummed | drivers/net/net.c:40-44 | what is summed, word by word, an odd last byte as if a zero byte followed |
| Checksum.RecomputingGivesZero | drivers/net/net.c:180-185 | a message with its checksum filled in has checksum zero |
| Checksum.SumIsByteOrderIndependent | drivers/net/net.c:40-43 | the little-endian sum is the byte swap of the network-order one (section 2(B) of RFC 1071) |
| Checksum.WireBytesRight | drivers/net/net.c:185 | the two bytes stored are those RFC 1071 puts on the wire |
| Arp.Cache.Resolve | drivers/net/net.c:115-120 | the hardware address of the first valid entry, or none |
| Arp.Cache.Put | drivers/net/net.c:85-95 | one slot replaced: the address's own, a free one, or the oldest of a full cache |
| Arp.PutThenLookup | drivers/net/net.c:85-120 | the address is found with its new hardware address, all others as before except the one replaced |
| Vfs.Store.Find | fs/vfs.c:37-42 | the first used node of that path |
| Vfs.Store.AllocNode | fs/vfs.c:44-56 | the path leads to an empty node now, unless the table is full, and the others to what they did |
| Vfs.Store.Grow | fs/vfs.c:111-120 | called when it ends, the loop runs exactly the rounds that are needed and granted, reaches the capacity of that many doublings, keeps the contents, and succeeds exactly when there is room |
| Vfs.Store.WriteNode | fs/vfs.c:107-125 | zero padding up to the position and overwriting from there; a failed growth leaves contents, size and position; other nodes keep theirs; `outside` only when the end wrapped or a file has no buffer |
| Vfs.Store.Write | fs/vfs.c:107-125 | the same through the paths: only the written path's bytes change; with memory granted, a write up to MAX_DATA succeeds |
| Vfs.Store.Read | fs/vfs.c:98-105 | the bytes from the position on, up to len or the end; behind the end, zeros from the buffer; `outside` exactly when the copy leaves the buffer |
| Vfs.Store.Open | fs/vfs.c:80-94 | an unknown path exists afterwards exactly with CREATE and a free node, and is empty; a file is empty after TRUNC and unchanged without; NULL only without a node or without memory for the handle; the position is the end with APPEND and 0 without; other paths keep what they led to |
| Vfs.Store.Truncate | fs/vfs.c:87 | the file becomes empty and its buffer zero |
| Vfs.Store.Unlink | fs/vfs.c:175-185 | the path is gone and every other path leads to what it did |
| Vfs.Store.Mkdir | fs/vfs.c:131-134 | 0 exactly when the path exists afterwards, as a new directory or as what it was; every other path leads to what it did |
| Vfs.Store.MkdirP | fs/vfs.c:136-147 | every prefix before a slash exists afterwards unless the table is full, nothing but those directories appears, and what existed stays as it was |
| Vfs.Store.ReadLine | fs/vfs.c:163-173 | the bytes of one line through a handle: up to its newline, the buffer's end or the end of the file |
| Files.Perform | fs/vfs.c:80-184 | one call on the store proper is one step of the map, with an answer the map may give |
| Files.UnlinkedLinked | fs/vfs.c:175-184 | an unlink takes the node away from exactly the handles opened on it |
| Files.OneRun | fs/vfs.c:80-184 | with memory granted the calls determine all their answers |
| Files.UnnamedStays | fs/vfs.c:80-184 | over a whole run, a path no call names and no handle is on leads to what it did |
| Files.SavedWhole | fs/vfs.c:80-125 | after a truncating open and one accepted write the path leads to exactly the bytes written, whatever stood there |
| Files.AppendedBehind | fs/vfs.c:80-125 | after an appending open and one accepted write the bytes stand behind those that stood there |
| Files.OpenedAtStart | fs/vfs.c:80-105 | a plain open leaves the file as it is and reads from its first byte |
| Files.WrittenIsRead | fs/vfs.c:98-129 | what was written is what is read there, through the same handle or another one on the path |
| Files.ReadsGoOn | fs/vfs.c:98-105 | two reads one behind the other are one |
| Files.GoneAndMade | fs/vfs.c:127-184 | a path unlinked is gone and its handles are unusable; one made exists; an unknown one is not opened |
| Files.NeverStops | fs/vfs.c:80-184 | the calls a run never stops at, by handle, position and length |
| Files.Session | fs/vfs.c:80-184 | any sequence of opens, closes, seeks, writes, reads, line reads, unlinks and mkdirs on an empty store is the run of a map from paths to bytes, up to a call outside the model: every answer is the map's and every path leads to what the map says |
| Growth.GrowthEndsIff | fs/vfs.c:111-116 | the growth loop, testing in 32 bits, ends exactly when the wrapped sum of position and length is at most MAX_DATA or some request to come is refused |
| Growth.GrowthStops | fs/vfs.c:111-120 | when it ends, it does so after a definite number of granted rounds |
| Growth.CapDoubles | fs/vfs.c:111-113 | from 4096 bytes on the capacity doubles each round and is a megabyte after eight |
| Growth.PastBuffer | fs/vfs.c:111-121 | when the loop has found room, the write lies past the buffer exactly when position plus length wrapped |
| Vfs.OverwrittenAt | fs/vfs.c:121-123 | byte by byte: the written range, zeros in a gap, everything else unchanged |
| Vfs.ConsecutiveWrites | fs/vfs.c:121-123 | two writes one behind the other are one write of both pieces |
| Vfs.ReadBackWritten | fs/vfs.c:98-125 | reading where a write went returns what was written |
| Inflate.ValSplit | apps/deb_installer/deb_installer.c:51-60 | reading a + b bits is reading a and then b |
| Inflate.Reader.Bits | apps/deb_installer/deb_installer.c:51-60 | the next n bits, least significant first, exactly; an error and no bits when the input ends; the buffer stays below 32 bits |
| Inflate.HeaderRoundTrip | apps/deb_installer/deb_installer.c:123-127 | every combination of optional gzip fields is skipped to its end (section 2.3 of RFC 1952) |
| Inflate.FieldByField | apps/deb_installer/deb_installer.c:123-127 | which flag bit tells of which field, and where the header ends |
| Inflate.BlocksRoundTrip | apps/deb_installer/deb_installer.c:134-146 | any sequence of stored blocks that fits decodes to its data (section 3.2.4 of RFC 1951) |
| Inflate.GunzipInvertsStored | apps/deb_installer/deb_installer.c:121-155 | decoding undoes any stored-block gzip encoding |
| Inflate.GunzipParts | apps/deb_installer/deb_installer.c:121-133 | refused exactly without the magic bytes or below 18 bytes; otherwise the blocks between header and trailer decide |
| Inflate.GzipInflate | apps/deb_installer/deb_installer.c:121-155 | the output buffer and result are what the decoder specification says |
| Inflate.CopyStored | apps/deb_installer/deb_installer.c:145 | the stored bytes are appended, or an error when they do not fit |
| Inflate.CopyMatch | apps/deb_installer/deb_installer.c:113-116 | a match repeats the bytes dist places back, also over itself; an error for reaching too far back or past the end |
| Inflate.MatchDetermined | apps/deb_installer/deb_installer.c:113-116 | what a match produces is fixed by what stood before it |
| Inflate.MatchIsPeriodic | apps/deb_installer/deb_installer.c:113-116 | an overlapping match is its last dist bytes over and over |
| Fields.ReadNumber | apps/deb_installer/deb_installer.c:177-181 | the leading digits' value modulo 2^32, octal for tar and decimal for ar |
| Fields.NumberIs | apps/deb_installer/deb_installer.c:177-181 | exactly the leading digits below the base count, the first one highest |
| Fields.EveryNumberHasAField | apps/deb_installer/deb_installer.c:177-181 | every size below base^w can be written in a field of width w so that it reads back |
| Tar.PathRecovered | apps/deb_installer/deb_installer.c:198-206 | prefix and name come out joined exactly when their fields leave room for a terminator, or a zero byte follows a full name, or both are full and all slashes around their border |
| Tar.TarWalk | apps/deb_installer/deb_installer.c:192-215 | called when it ends: the calls made, in order, with path, size, kind and place, and how the walk ends, offsets in 32 bits |
| Tar.NeverEndsIffHeaderReturns | apps/deb_installer/deb_installer.c:194-213 | the walk never ends exactly when a visited header comes back |
| Tar.EndsWithoutCarry | apps/deb_installer/deb_installer.c:194-213 | it ends when no visited header's size carries its offset past 2^32 |
| Tar.EndsSoonOrNever | apps/deb_installer/deb_installer.c:194-213 | it ends within as many turns as the archive has bytes, or never |
| Tar.StandsStillIff | apps/deb_installer/deb_installer.c:212 | a header comes back to itself at once exactly for sizes 0xFFFFFC01 to 0xFFFFFE00 |
| Tar.PathBytes | apps/deb_installer/deb_installer.c:197-209 | the path in the bytes of the header, any header: up to 154 bytes of prefix, a slash and the bytes from the name on to the next zero, or up to 99 bytes of name |
| Tar.HeaderFields | apps/deb_installer/deb_installer.c:195-212 | size, kind, place and next header of a call, in the bytes of the header |
| Tar.FinishesAt | apps/deb_installer/deb_installer.c:194-196 | the walk is finished exactly at a zero byte or where no header fits |
| Tar.RefusedIsLast | apps/deb_installer/deb_installer.c:211 | a call refused by the callback is the last one and makes the walk fail, and nothing else does |
| Tar.TarRoundTrip | apps/deb_installer/deb_installer.c:192-215 | from any header on, the files written are reported in order |
| Tar.TarInvertsWriter | apps/deb_installer/deb_installer.c:192-215 | the walk undoes any ustar writer, whatever follows the terminating zero byte: one call per file, in order, with path, size and kind, and the content at the place given |
| Ar.NameRecovered | apps/deb_installer/deb_installer.c:246-255 | an ar name comes out whole exactly up to 15 bytes |
| Ar.ArNameIs | apps/deb_installer/deb_installer.c:246-255 | a name ends before a slash, space or zero byte, and 15 bytes of it are kept |
| Ar.MemberFields | apps/deb_installer/deb_installer.c:242-259 | where a header stands, and size, place and next header of a member in its bytes |
| Ar.ArParse | apps/deb_installer/deb_installer.c:235-262 | -1 exactly without the magic; otherwise the records of the listing, up to max, and nothing behind them touched |
| Ar.ArRoundTrip | apps/deb_installer/deb_installer.c:235-262 | the parser undoes any ar writer: the first max members with names and sizes, and the content at the place given |
| Http.ReadSize | drivers/net/http.c:204-211 | the size line's end and its digits' value modulo 2^32 |
| Http.DechunkBody | drivers/net/http.c:202-224 | the decoded bytes and a terminator, or that a copy would leave its buffers |
| Http.ChunksDecode | drivers/net/http.c:202-219 | a run of chunks is decoded to the concatenation of their data |
| Http.LongChunkIsCut | drivers/net/http.c:216-218 | a chunk with more data than the body still takes is cut to that |
| Http.DechunkInvertsChunking | drivers/net/http.c:202-224 | any encoding whose size lines are read right, among them all without extensions, in either case and with leading zeros, returns the chunks' concatenation, whatever follows the last line (section 7.1 of RFC 9112) |
| Http.ExtensionFreeReads | drivers/net/http.c:206-214 | a line of hexadecimal digits alone is read as its value |
| Http.HexReads | drivers/net/http.c:207-213 | digits 0 to 9 and a to f, in either case, are read as the number they spell |
| Http.EverySizeHasALine | drivers/net/http.c:207-213 | every size can be spelled, with any number of zeros in front |
| Http.ExtensionReadsRight | drivers/net/http.c:206-214 | with any text between the size and the end of its line the size is read right exactly when the difference vanishes in 32 bits; behind eight characters exactly when the text spells the size itself |
| Http.ExtensionMisread | drivers/net/http.c:206-214 | the line "5;a" is read as 0x50A |
| Http.DecodeInvertsEscape | drivers/net/http.c:245-257 | decoding undoes the escaping of &, < and > wherever the text stands, and a decoded & is not decoded again |
| Http.DecodesOne | drivers/net/http.c:245-257 | the four entities, &nbsp; as a space among them, are decoded wherever they stand, and every other character is itself |
| Http.DecodeEntities | drivers/net/http.c:245-257 | the rewrite in place leaves the decoded text and a terminator and touches nothing behind the old one |
| Format.CountDigits | kernel/kprintf.c:11-15 | the number of digits of the shortest numeral |
| Format.ReversedDigits | kernel/kprintf.c:17-23 | the digits of every word fit the 32-place buffer, lowest first |
| Format.Printer.EmitUint | kernel/kprintf.c:17-28 | the digits in a field of at least pad characters, filled with zeros or spaces in front or spaces behind |
| Format.Printer.EmitStr | kernel/kprintf.c:30-35 | the string in a field of at least pad characters |
| Format.Printer.EmitSigned | kernel/kprintf.c:46-61 | all branches of %d produce the one field of sign and magnitude, INT_MIN included |
| Format.Printer.Kvformat | kernel/kprintf.c:37-81 | the characters sent are the output of the format string's pieces |
| Format.Directive | kernel/kprintf.c:40-45 | flags, width and letter are split as the reference grammar says |
| Format.DirectiveReads | kernel/kprintf.c:40-45 | every directive a caller writes is read with its flags, width and letter |
| Format.Ksnprintf | kernel/kprintf.c:97-107 | exactly the first min(total, max - 1) characters and a terminator; nothing for a null or empty buffer |
| Format.Printer.Put | kernel/kprintf.c:97 | the buffer holds what was sent, cut to leave one place |
| Format.FieldReadsBack | kernel/kprintf.c:17-68 | with any flags and width the emitted digits read back as the value and its sign |
| Format.SignedReadsBack | kernel/kprintf.c:46-61 | %d of every word reads back as its signed value |
| Format.UnsignedReadsBack | kernel/kprintf.c:62-68 | %u, %x and %X read back as the word; %p is 0x and eight digits that do |
| Format.FieldWidth | kernel/kprintf.c:17-35 | a field is as long as its width, or as sign and digits when those are longer |
| Format.FieldShape | kernel/kprintf.c:17-61 | the filling of a field is behind with the minus flag, zeros between sign and digits with the zero flag alone, and spaces in front otherwise |
| Format.ShownDigits | kernel/kprintf.c:17-23 | each digit is the character of its value, in the case asked for |
| Format.HexLetters | kernel/kprintf.c:63-64 | %x sends no capital letter and %X no small one |
| Format.OtherDirectives | kernel/kprintf.c:69-79 | %c is the low byte, %s the string or (null) in a field of spaces, %% a percent sign, any other letter a question mark; only the first two take an argument |
| Numerals.ValueOfNumeral | kernel/kprintf.c:23 | the digits produced by repeated division have the value divided |
| Numerals.NoLeadingZero | kernel/kprintf.c:21-23 | a number above zero is shown without leading zeros |
| Numerals.NumeralFits | kernel/kprintf.c:19 | a number below base^w needs at most w digits |

## Left out

- Headers as raw bytes: a memory cell is a byte or a header record, so a payload that happens to hold the tag value where a header could stand, and writes outside a client's own block, are not modelled.
- kcalloc: `n * sz` wraps in 32 bits; only its call of kmalloc is covered.
- A second kmem_init_at: the counter of used bytes is not reset there; initialisation is modelled once, over memory without headers.
- Heap.Heap.Krealloc: reports `outside` where the rounded size wrapped and the copy would leave the new block.
- Heap.Heap.Kfree: the pointer is NULL or at least 16, so that the header lies in memory.
- Raster.Framebuffer.Line: distances up to 715827882 on either axis, a third of the signed range, so that no signed intermediate overflows.
- Raster.Framebuffer.Rect: the far edges are signed 32-bit numbers.
- Raster.Framebuffer.Circle: the outermost coordinates are signed 32-bit numbers and the radius is at most 0x1FFFFFF0, for the same reason.
- fb_clear, text and glyphs.
- Packages.Manager.PkgRemove: reports `outside` where it would keep more lines than its table of 256 holds; what the code overwrites then is not modelled.
- Storage failures of the package database and its 1 MB limit: opening, writing and allocating succeed there.
- Packages.Manager.PkgUpdate: the freshly parsed lists are a parameter; parse_packages, the sources list and URL building are not modelled.
- Downloads and extraction: whether number t succeeds is a parameter, one answer for both; extraction is taken to leave /etc/pkg/installed.db alone, though a package that carries that file would replace it (apps/pkg/pkg.c:442-458).
- pkg_upgrade, pkg_list and the direct database append of deb_install, which bypasses the cache.
- Lines.ReadLine: works on the file's text and a position; the reader on a node's bytes is Vfs.Store.ReadLine, with the same line ends.
- Port I/O, DMA time-outs and interrupts of the NE2000; sending; remote DMA is a memory read.
- NicRing.Interleave: fetching a frame's header and data is one step.
- NicRing.Nic.Deposit: the chip's behaviour (header layout, page order, never overtaking the boundary, no frame above 1532 bytes) is an assumption written as code.
- TCP reliability: sequence numbers are not compared by the code, so the stream theorem is about a peer that keeps order; retransmission, time-outs, sending and closing are not modelled.
- Tcp.Sock.Accept: acknowledgements are their numbers; the other header fields and transport_cksum, which adds host-order address halves to byte-swapped words, are not modelled.
- Tcp.TableSession: the sockets listen on different ports; for sockets sharing one there is Tcp.TcpHandle alone.
- UDP, DHCP, DNS; the waiting and the gateway choice of arp_resolve.
- Vfs.Store.Write: is called when its loop ends (Growth.GrowthEndsIff says when), and reports `outside` where the copy leaves the buffer: after a sum that wrapped, or for a node without a buffer.
- Vfs.Store.Read: reports `outside` where the copy leaves the buffer.
- Reading and writing through handles whose node was unlinked, and paths longer than 255 characters in vfs_open. vfs_init is a run of mkdirs.
- Files.Session: stops at a call on a closed handle or, but for seek and close, on one whose node is gone, at a write that reaches past MAX_DATA or to a node left without a buffer, and at a read behind the end that leaves the buffer; vfs_mkdir_p and vfs_size are not among its calls.
- Vfs.Store.Kmalloc: whether a request is granted is a parameter; the buffers it returns are the disjoint zeroed blocks that Heap proves.
- Inflate: fixed-Huffman symbol decoding (its code bits are not taken in the order section 3.1.1 of RFC 1951 asks for), the unused huff_decode, CRC and length trailer; headers and blocks cut short where the code reads without a length test are outside (`Undefined`).
- Tar.TarWalk: is called when it ends (Tar.NeverEndsIffHeaderReturns says when); the callback's answer depends on the entry alone; the walk ends as `LeftModel` where a name has no terminator in the archive, a joined path overflows the 512-byte buffer, or the test of the next header wraps past 32 bits.
- Ar.ArParse: stops with `outside` where the test of the next header wraps past 32 bits.
- deb_install's choice of members, control parsing and extraction callback.
- HTTP requests, header parsing, redirects and html_parse; a body buffer that kmalloc refuses.
- Http.DechunkBody: reports `outside` where a copy would read past the receive buffer.
- Format: widths are unbounded numbers, so a width that overflows a signed int is outside; kprintf's terminal; directives are given arguments of the right kind, as C requires.

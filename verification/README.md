# In-memory machinery of the kernel: model and proofs

The project models the parts of the kernel that move bytes and names around in memory, and
proves what they keep over every input and every run.  State that the kernel updates in
place is a class or an array with `modifies` clauses; each method is tied to a function of the
old state, and the theorems are about those functions and about runs of them.

| module | models |
|---|---|
| `DpcQueue` | the 32-slot event queue polled by another processor |
| `Pipe` | the pipe ring buffer behind two open files |
| `FdTable` | descriptor tables and reference counts: open, dup, dup2, dup3, close, clone, process creation, uncounted stores |
| `Mailbox` | local sockets as one-message mailboxes |
| `FileStream` | the buffer of a regular file, from open to end of file |
| `DosName`, `PathWalk` | 8.3 names, the directory scan, the walk along a path |
| `Tokenizer`, `CString` | the destructive tokenizer, string comparison and copying |
| `Numerals`, `Printing`, `Atoi` | numerals, the four number printers, the parser |
| `HttpRequest`, `HttpResponse` | the request line, routing, the response |
| `FileCommon`, `Sequences` | constants and flags that the file modules share; facts about sequences |

Memory that is only read is a sequence; running off the end of memory is an outcome of its own
(`PathWalk.ReadPastEnd`) or excluded by a precondition that says where the terminator is.
Integers are unbounded except where the width matters: 32-bit wrap-around in `Atoi`, the
conversion to unsigned and INT_MIN in `Printing`, the 16-bit mask on read lengths in
`FileStream` and `Mailbox`.  A kernel panic is an outcome.  The disk driver is a parameter that says
which loads succeed, memory allocation a parameter that gives the address.

## Where the code does not do what one would expect

In each case the model follows the code, and a lemma gives the exact condition or a concrete run.

- A descriptor may name a closed file.  Process creation gives every process the standard streams without counting them, and each stream's count starts at one, so from the second process on the counts are too low and a dup2 over descriptor 0 in one process closes the standard input of all (`FdTable.SecondProcessBreaksTheCounts`); the device branch of open does not look at the magic number, so a device struck off by dup2 can be opened again, dead (`FdTable.ReopenedDeviceIsDead`).  `FdTable.RunLiveIff` gives the exact condition from any tables, `FdTable.RunCountedIff` the exact condition for the counts.
- Close frees a slot without counting down, so even where the counts hold they only bound the descriptors from above; by how much is exact (`FdTable.RunSlack`).
- Files of 8185 to 8192 bytes open successfully and can never be read, because the enlarged buffer exceeds the limit that the read path checks (`FileStream.OpenedFileIsReadableIff`).  Files of 1024 bytes or more get an enlarged buffer and take no writes (`FileStream.EnlargedFileRefusesWrites`).  At end of file the buffer read returns 0, but the read call turns that into -1 (`FileStream.OpenedFileReadsBack`).
- A socket write of 1024 bytes or more that finds the mailbox empty is refused with both flags down; reads and writes then do nothing until request 216, 217 or sleep-if-empty (`Mailbox.OverlongWriteWedges`, `Mailbox.WedgedIff`).  A read panics exactly after request 217 on an empty mailbox (`Mailbox.PanicFreeIff`, `Mailbox.PanicAfter217`).
- The event queue is first-in first-out exactly for runs in which no accepted post lands nearer to the poller than a waiting message, which happens when the head has moved past the latest waiting message but not past the tail; with positive codes, when the two meet while something waits (`DpcQueue.FifoIff`, `DpcQueue.OvertakesIff`, `DpcQueue.PositiveOvertakesIff`, `DpcQueue.NotFifo`).  A negative code is stuck for ever and lets at most 31 more messages in (`DpcQueue.NegativeCodeEndsTheQueue`); a zero code is accepted and never delivered (`DpcQueue.DeliveredWithin32`).
- The name converters blank upper-case extension letters (`DosName.ExtensionSurvivesIff`), and in a name of more than eight characters without a dot take the bytes behind the terminator for the extension (`DosName.PickExt`).  The directory scan's space padding of short names is overwritten by strncpy's NULs, so a name of fewer than eleven bytes is compared with NULs behind it (`DosName.SearchInDir`).
- The path walk skips a directory name of exactly twelve characters without loading it.  A name of eleven, or of thirteen and more, panics, except that thirteen and more return failure when the next slash lies beyond the 2000 characters that are counted (`PathWalk.PathOutcome`, `PathWalk.LoadedIff`, `PathWalk.OneLoadPerComponentIff`).  Extensions are cut at three characters.
- The scan of a level does not look for the terminator: a last name of at most ten characters without a dot is read on into the memory behind it (`PathWalk.StringSufficesIff`).
- An HTTP version longer than fifteen characters is cut; methods and URIs never are (`HttpRequest.ParsedIsPrinted`).

## Model

| member | source | states |
|---|---|---|
| `DpcQueue.Queue.constructor` | core/castleos/halls/dev/exec/ke/hal/x86_64/smp/apic.h:215-245 | A queue in zeroed memory is valid and is the empty queue that the run theorems start from. |
| `DpcQueue.Queue.PostMessage` | core/castleos/garden/entry/kmain.c:223-271 | Performs one post on the nine parallel arrays: all nine fields go to the tail slot if its code is 0, nothing else moves; a post that finds it occupied is lost. |
| `DpcQueue.Queue.GetMessage` | core/castleos/garden/entry/kmain.c:273-332 | Performs one poll: a positive code is copied whole to the cache and its slot freed; otherwise -1, and the head index advances all the same. |
| `DpcQueue.RunKeepsInv` | core/castleos/garden/entry/kmain.c:223-332 | Every interleaving of posts and polls, with any message codes, keeps: a slot is occupied exactly when its latest message has a code and is undelivered, and then holds it intact. |
| `DpcQueue.ExactlyOnce` | core/castleos/garden/entry/kmain.c:223-332 | Over every run from the empty queue, with any codes: accepted messages with a code = delivered + stored as multisets, every delivery is one accepted message with a positive code, unaltered, none is delivered twice. |
| `DpcQueue.CacheIsLastOutput` | core/castleos/garden/entry/kmain.c:301-322 | Over every run the cache holds the last message handed over: posts and empty polls leave it alone. |
| `DpcQueue.BadIndexIsZero` | core/castleos/garden/entry/kmain.c:236-282 | An index found out of range is taken for 0. |
| `DpcQueue.DeliveryTime` | core/castleos/garden/entry/kmain.c:273-332 | An accepted message is delivered by exactly the poll that reaches its slot, at distance d < 32 from the head, however posts interleave; at most 31 others come before it. |
| `DpcQueue.DeliveredWithin32` | core/castleos/garden/entry/kmain.c:273-332 | In any continuation holding 32 polls an accepted message has been delivered if and only if its code is positive. |
| `DpcQueue.LostIff` | core/castleos/garden/entry/kmain.c:236-270 | In every reachable state a post is lost if and only if the message accepted 32 acceptances earlier has a code and has not been fetched. |
| `DpcQueue.FirstPostsAreAccepted` | core/castleos/garden/entry/kmain.c:243-270 | The first 32 posts to an empty queue never drop, whatever polls come between. |
| `DpcQueue.PolledOftenNeverLoses` | core/castleos/garden/entry/kmain.c:236-270 | With 32 polls between acceptance n and attempt n+32 the attempt succeeds if and only if message n had no negative code. |
| `DpcQueue.NearerComesFirst` | core/castleos/garden/entry/kmain.c:284-332 | Of two waiting messages, in every continuation the one farther from the head is delivered only after the nearer one. |
| `DpcQueue.HandedOverFirstIff` | core/castleos/garden/entry/kmain.c:284-332 | One waiting message precedes another in every continuation if and only if its slot is nearer to the head. |
| `DpcQueue.FifoIff` | core/castleos/garden/entry/kmain.c:223-332 | A run from empty, once drained, has delivered in the order of acceptance if and only if no accepted message ever landed nearer to the head than one already waiting. |
| `DpcQueue.OvertakesIff` | core/castleos/garden/entry/kmain.c:243-292 | What that comes to at the post, for any codes: while the order is kept, a post overtakes if and only if it is accepted while the head has moved past the latest waiting message but not past the tail. |
| `DpcQueue.PositiveOvertakesIff` | core/castleos/garden/entry/kmain.c:243-292 | With positive codes only: if and only if it is accepted with head equal to tail and something waiting. |
| `DpcQueue.FifoOutputs` | core/castleos/garden/entry/kmain.c:223-332 | With positive codes a run that never overtakes, once drained, has output exactly the accepted messages, in order. |
| `DpcQueue.NotFifo` | core/castleos/garden/entry/kmain.c:284-292 | The shortest run that does overtake: after one empty poll the second of two posts is delivered first. |
| `DpcQueue.NegativeCodeJamsItsSlot` | core/castleos/garden/entry/kmain.c:243-292 | A negative code satisfies neither test and occupies its slot in every continuation. |
| `DpcQueue.NegativeCodeEndsTheQueue` | core/castleos/garden/entry/kmain.c:243-270 | Once a negative code has been accepted, no continuation accepts more than 31 further messages, because the tail never passes the jammed slot. |
| `Pipe.PipeInfo.constructor` | core/castleos/gthouse/fs/pipe.c:440-453 | The shared state of a new pipe is an empty ring over the given buffer and satisfies the ring invariant. |
| `Pipe.File.constructor` | core/castleos/gthouse/fs/pipe.c:314-375 | Each end starts out passing the validity checks and naming the shared state. |
| `Pipe.PipeInfo.CopyOut` | core/castleos/gthouse/fs/pipe.c:473-497 | The read loop moves min(len, unread) bytes, oldest first, and leaves the rest of the caller's buffer alone. |
| `Pipe.PipeInfo.CopyIn` | core/castleos/gthouse/fs/pipe.c:517-540 | The write loop appends min(len, free) bytes behind the unread ones. |
| `Pipe.FileReadPipeBuffer` | core/castleos/gthouse/fs/pipe.c:464-506 | A rejected call returns its error and changes nothing; an accepted one returns the oldest unread bytes, keeps the others, and marks the end writable. |
| `Pipe.FileWritePipeBuffer` | core/castleos/gthouse/fs/pipe.c:508-549 | A rejected call returns its error and changes nothing; an accepted one appends what fits and marks the end readable. |
| `Pipe.UnreadBytesAreModular` | core/castleos/gthouse/fs/pipe.c:486-492 | The unread bytes are the `counter` bytes from `read_pos` on modulo the size, although either position may rest at the size itself. |
| `Pipe.WriteAppends` | core/castleos/gthouse/fs/pipe.c:517-540 | Contents afterwards = contents before + the first min(len, free) bytes given. |
| `Pipe.ReadRemoves` | core/castleos/gthouse/fs/pipe.c:473-497 | Contents before = bytes returned + contents afterwards, with exactly min(len, available) returned. |
| `Pipe.StepIsFaithful` | core/castleos/gthouse/fs/pipe.c:464-549 | Each call keeps accepted = returned + unread and moves exactly min(len, available) or min(len, free) bytes. |
| `Pipe.PipeIsFifo` | core/castleos/gthouse/fs/pipe.c:440-549 | Over every interleaving of calls of any lengths on the ring that both ends of a new pipe name, returned bytes are a prefix of accepted bytes and the rest is what the ring holds. |
| `FdTable.Kernel.FindFree` | core/castleos/gthouse/fs/pipe.c:58-67 | The slot search finds the lowest free descriptor, or none. |
| `FdTable.FirstFree` | core/castleos/gthouse/fs/fslib.c:2189-2196 | The slot found is free and every slot before it is taken; none means all are taken. |
| `FdTable.Kernel.constructor` | core/castleos/halls/dev/exec/ke/process/te.c:1104-1107 | Cleared tables with the given file structures are valid and name no closed file; with the standard streams they are the booted state. |
| `FdTable.Kernel.Dup` | core/castleos/gthouse/fs/pipe.c:36-76 | sys_dup with its errors, on the whole table (see FdTable.DupEffect). |
| `FdTable.DupEffect` | core/castleos/gthouse/fs/pipe.c:36-76 | dup succeeds if and only if the descriptor is open and some slot is free; the lowest free descriptor then names its file, all other descriptors stay, and just that count rises by one; else -9 or -24 and no change. |
| `FdTable.Kernel.CloseSlot` | core/castleos/gthouse/fs/pipe.c:103-117 | The implicit close inside dup2 and dup3: count down, strike the file off when the count reaches zero, free the slot. |
| `FdTable.Kernel.RedirectTo` | core/castleos/gthouse/fs/pipe.c:151-166 | What dup2 and dup3 share, also when the victim is the very file being duplicated. |
| `FdTable.Kernel.Dup2` | core/castleos/gthouse/fs/pipe.c:78-124 | sys_dup2 with its error order; a descriptor duplicated onto itself is returned untouched. |
| `FdTable.Kernel.Dup3` | core/castleos/gthouse/fs/pipe.c:126-181 | sys_dup3 with its error order; a descriptor duplicated onto itself is an error. |
| `FdTable.Kernel.Close` | core/castleos/gthouse/fs/fslib.c:2271-2435 | __close_imp by object type: a slot is freed, or kept, without any counting; a socket file without a socket is an error. |
| `FdTable.CloseEffect` | core/castleos/gthouse/fs/fslib.c:2413-2435 | A close either changes nothing at all or frees exactly its slot and leaves every count alone. |
| `FdTable.CloseResult` | core/castleos/gthouse/fs/fslib.c:2279-2435 | Which result close has for every descriptor: -9 for 0 to 2 and out of range, 0 exactly when the slot is freed or the object keeps it, else -1. |
| `FdTable.Kernel.OpenDevice` | core/castleos/gthouse/fs/fslib.c:2178-2216 | The device branch of __open_imp: lowest free slot, noted in the file and counted, with no look at the magic number. |
| `FdTable.Kernel.OpenFile` | core/castleos/gthouse/fs/fslib.c:4181-4388 | A newly opened file starts with one descriptor and a count of one; an empty or over-long file, a failed load or a full table leaves no descriptor. |
| `FdTable.Kernel.Open` | core/castleos/gthouse/fs/fslib.c:2170-2246 | __open_imp behind the device lookup: the device branch if a device was found, else the load from disk. |
| `FdTable.OpenEffect` | core/castleos/gthouse/fs/fslib.c:2170-2246 | A failed open changes nothing; a successful one puts the device or the new file, numbered, into the lowest free slot; either is one step of a run. |
| `FdTable.OpenDeviceEffect` | core/castleos/gthouse/fs/fslib.c:2178-2216 | Opening a device succeeds if and only if it is one and a slot is free; the lowest free descriptor names it, its count rises by one and its number is noted; nothing else changes. |
| `FdTable.OpenFileEffect` | core/castleos/gthouse/fs/fslib.c:4181-4388 | Opening a file succeeds if and only if a slot is free, memory was found, the size is 1 to 8192 and the load succeeds; the new structure is intact, counted once, in the lowest free slot, and no other file or slot changes. |
| `FdTable.Kernel.CloneDescriptors` | core/castleos/halls/dev/exec/ke/process/clone.c:292-304 | A cloned process gets every descriptor of its parent, each one counted. |
| `FdTable.CloneCopies` | core/castleos/halls/dev/exec/ke/process/clone.c:292-304 | The child's row becomes the parent's and every other row stays. |
| `FdTable.Kernel.InitializeObjects` | core/castleos/halls/dev/exec/ke/process/te.c:1104-1110 | A created process gets a cleared table and the three standard streams, none of them counted. |
| `FdTable.CreateEffect` | core/castleos/halls/dev/exec/ke/process/te.c:1104-1110 | Slots 0 to 2 hold the three streams, the others nothing; no other row and no file changes. |
| `FdTable.Kernel.DuplicateFd` | core/castleos/gthouse/fs/fslib.c:3528-3564 | fs_duplicate_fd with its errors: the first free slot from `start` on, not counted. |
| `FdTable.DuplicateIsStore` | core/castleos/gthouse/fs/fslib.c:3545-3563 | It fails and changes nothing, or stores a file with a valid magic number into a free slot. |
| `FdTable.DuplicateEffect` | core/castleos/gthouse/fs/fslib.c:3528-3564 | fs_duplicate_fd takes the first free descriptor from start on, changes no file and no other slot; the error codes and when each is given. |
| `FdTable.RedirectSlots` | core/castleos/gthouse/fs/pipe.c:99-123 | dup2 and dup3 make newfd name what oldfd names and leave every other descriptor of every process alone. |
| `FdTable.RedirectFiles` | core/castleos/gthouse/fs/pipe.c:103-121 | The file joined counts one up and the file left one down; the latter is struck off if that was its last reference, and no other file is marked. |
| `FdTable.Dup2Effect` | core/castleos/gthouse/fs/pipe.c:78-124 | The result and effect of dup2 for every argument: newfd, or -9 and no change; onto itself it changes nothing. |
| `FdTable.Dup3Effect` | core/castleos/gthouse/fs/pipe.c:126-181 | The same for dup3, with -22 for equal descriptors. |
| `FdTable.StepCountedIff` | core/castleos/gthouse/fs/pipe.c:36-181 | A call keeps fd_counter >= number of descriptors for every file if and only if each file has surplus for the descriptors it adds uncounted; dup, dup2, dup3, close, open and clone always do. |
| `FdTable.CreateCountedIff` | core/castleos/halls/dev/exec/ke/process/te.c:1104-1110 | Creating a process in an empty row keeps the counts if and only if each of the three streams counts at least one more reference than it has descriptors. |
| `FdTable.StoreCountedIff` | core/castleos/gthouse/fs/fslib.c:3552-3560 | An uncounted store into a free slot keeps the counts if and only if its file has a reference to spare. |
| `FdTable.RunCountedIff` | core/castleos/gthouse/fs/pipe.c:36-181 | Over every run of all these calls by any processes, the counts hold throughout if and only if every uncounted store had a reference to spare. |
| `FdTable.RunIsCounted` | core/castleos/gthouse/fs/pipe.c:36-181 | A run by any processes in which every store is counted (no creation, no uncounted store) keeps fd_counter >= number of descriptors for every file. |
| `FdTable.StepSlack` | core/castleos/gthouse/fs/fslib.c:2425-2430 | From any tables: the surplus of a count over its descriptors grows by exactly the descriptors a call overwrites uncounted and shrinks by exactly those it stores uncounted. |
| `FdTable.RunSlack` | core/castleos/gthouse/fs/fslib.c:2425-2430 | The exact count over every run from any tables: descriptors naming the file, plus those dropped uncounted, less those stored uncounted, plus the initial surplus. |
| `FdTable.CountedNeverStrikes` | core/castleos/gthouse/libk/kstdio.c:1616-1632 | As long as the counts hold, k_fclose is never reached for a file that another descriptor names. |
| `FdTable.ReleaseLiveIff` | core/castleos/gthouse/fs/pipe.c:103-117 | The implicit close leaves all other descriptors on open files if and only if it did not release the last counted reference of a file that others name. |
| `FdTable.RedirectLiveIff` | core/castleos/gthouse/fs/pipe.c:103-121 | The same for the whole of dup2/dup3, also when both descriptors already name the same file. |
| `FdTable.StepLiveIff` | core/castleos/gthouse/fs/fslib.c:2178-2205 | Without assuming the counts: a call makes some descriptor name a closed file if and only if it reopens a closed device, redirects the last counted reference of a file that others name, or hands a closed stream or file to a slot. |
| `FdTable.RunLiveIff` | core/castleos/gthouse/fs/pipe.c:36-181 | From any tables that name no closed file, a run by any processes keeps all descriptors off closed files throughout if and only if none of its calls does that. |
| `FdTable.CountedRunLiveIff` | core/castleos/gthouse/fs/fslib.c:2178-2205 | From counted tables, while every store is counted, only reopening a closed device matters. |
| `FdTable.ReopenedDeviceIsDead` | core/castleos/gthouse/fs/fslib.c:2178-2205 | From every state with one process, one open file and an unopened device: opening the device, dup2 over it and opening it again leaves a descriptor on a closed file. |
| `FdTable.SecondProcessBreaksTheCounts` | core/castleos/halls/dev/exec/ke/process/te.c:1104-1110 | The booted kernel, with streams counted once: the first process keeps the counts, the second breaks them, and a dup2 over its descriptor 0 closes the standard input that the first still names. |
| `Mailbox.SocketFile.constructor` | core/castleos/gthouse/net/sockint.c:1226-1295 | A new socket file is the empty, writable, blocking mailbox that the run theorems start from. |
| `Mailbox.SocketFile.WriteImp` | core/castleos/gthouse/fs/fslib.c:1780-1877 | The socket branch of the write call with all its flag updates. |
| `Mailbox.SocketFile.StoreMessage` | core/castleos/gthouse/fs/fslib.c:437-455 | A message shorter than the buffer replaces the front of it; a longer one is refused. |
| `Mailbox.SocketFile.ReadImp` | core/castleos/gthouse/fs/fslib.c:1033-1117 | The socket branch of the read call, the panic on an empty mailbox included. |
| `Mailbox.SocketFile.SetFileSync` | core/castleos/gthouse/fs/fs.c:361-410 | Requests 216 and 217 on a valid file; nothing otherwise. |
| `Mailbox.SocketFile.SleepIfSocketIsEmpty` | core/castleos/gthouse/fs/fs.c:679-716 | Reports whether there is a message and raises the matching flag. |
| `Mailbox.WriteResult` | core/castleos/gthouse/fs/fslib.c:1780-1877 | A write is accepted if and only if 0 < length < 1024, the caller may write, the write flag is up and the mailbox is empty; it then returns the length, puts the message in front of memory and fills the mailbox; else 0 or -1 and no message changes. |
| `Mailbox.ReadResult` | core/castleos/gthouse/fs/fslib.c:1033-1117 | A read hands out if and only if it asks for bytes modulo 65536, may read, the read flag is up and the mailbox is full and valid; it returns the length asked for up to 1024 and leaves the mailbox empty and writable; else nothing is handed out. |
| `Mailbox.WriteThenRead` | core/castleos/gthouse/fs/fslib.c:1033-1117 | A message accepted and then read by its length comes back exactly, and the next one is accepted. |
| `Mailbox.RequestsEnable` | core/castleos/gthouse/fs/fs.c:378-410 | After 216 a message is accepted; after 217 a read hands out exactly if one is waiting; neither touches memory. |
| `Mailbox.SleepResult` | core/castleos/gthouse/fs/fs.c:679-716 | The answer is 1 exactly for a full valid mailbox, 0 for an empty one, -1 for an invalid file; what it announces can then be done. |
| `Mailbox.RunKeepsInv` | core/castleos/gthouse/fs/fslib.c:1780-1877 | Every run of writes, reads, resets and sleep-if-empty keeps the mailbox invariant. |
| `Mailbox.MailboxIsFaithful` | core/castleos/gthouse/fs/fslib.c:1033-1117 | Over every run of a new mailbox: a full one has flags exactly __SRD; messages taken are an in-order subsequence of those written; a read returns the length asked for, of its message followed by what older messages left in memory; every other message is waiting or lost. |
| `Mailbox.UnreadMessageIsSafe` | core/castleos/gthouse/fs/fslib.c:1794-1817 | No call overwrites an unread message; only a read or request 216 ends its wait. |
| `Mailbox.LossOnlyAt216` | core/castleos/gthouse/fs/fs.c:378-396 | Without request 216 nothing is lost. |
| `Mailbox.StrictAlternation` | core/castleos/gthouse/fs/fslib.c:1846-1872 | Without request 216 successful writes and reads strictly alternate, whatever 217s and sleeps happen. |
| `Mailbox.StepReadableIff` | core/castleos/gthouse/fs/fs.c:400-410 | The read flag goes up on an empty mailbox if and only if request 217 reaches it while it is empty. |
| `Mailbox.ReadPanicsIff` | core/castleos/gthouse/fs/fslib.c:1033-1071 | A read panics if and only if it asks for something, may read, would block, and the flag is up with nothing to read. |
| `Mailbox.PanicFreeIff` | core/castleos/gthouse/fs/fslib.c:1045-1071 | On a blocking socket no read at any point of a run panics if and only if request 217 never reaches an empty mailbox; on a full one it is harmless. |
| `Mailbox.UnarmedRunIsReadable` | core/castleos/gthouse/fs/fslib.c:1045-1071 | Such a run, blocking or not, ends unpanicked with the read flag up only on a full mailbox. |
| `Mailbox.PanicAfter217` | core/castleos/gthouse/fs/fs.c:400-410 | The shortest run that panics: 217 on a new blocking mailbox, then a read. |
| `Mailbox.StepWedgedIff` | core/castleos/gthouse/fs/fslib.c:1825-1843 | Both flags are down after a step if and only if a write was refused for its length, or they were down and the step is none of 216, 217 and sleep-if-empty; in the second case it changes nothing. |
| `Mailbox.WedgeLasts` | core/castleos/gthouse/fs/fslib.c:1780-1785 | With both flags down a run without those three requests changes nothing at all. |
| `Mailbox.WedgedIff` | core/castleos/gthouse/fs/fslib.c:1780-1877 | The same over every run of all five operations from any invariant state. |
| `Mailbox.OverlongWriteWedges` | core/castleos/gthouse/fs/fslib.c:1825-1843 | A new mailbox used by reads and writes alone ends with both flags down if and only if some write of 1024 bytes or more found it empty. |
| `FileStream.FileObject.Open` | core/castleos/gthouse/fs/fslib.c:4206-4294 | The open-time set-up establishes the stream invariant, also when the buffer is enlarged to size + 8. |
| `FileStream.FileObject.FileReadBuffer` | core/castleos/gthouse/fs/fslib.c:120-393 | file_read_buffer on a regular file, every guard in order, for any field values that stay inside the memory. |
| `FileStream.FileObject.FileWriteBuffer` | core/castleos/gthouse/fs/fslib.c:404-540 | The guards of file_write_buffer on a regular file. |
| `FileStream.FileObject.WriteRest` | core/castleos/gthouse/fs/fslib.c:541-597 | The clipping, copying and bookkeeping part of it. |
| `FileStream.FileObject.ReadImp` | core/castleos/gthouse/fs/fslib.c:1137-1219 | The regular-file branch of the read call. |
| `FileStream.FileObject.WriteImp` | core/castleos/gthouse/fs/fslib.c:1889-1938 | The regular-file branch of the write call. |
| `FileStream.SysReadResult` | core/castleos/gthouse/fs/fslib.c:1137-1219 | The read call returns min(count modulo 65536, unread) bytes from the read offset on and advances it by as many, or an error and no advance. |
| `FileStream.SysWriteResult` | core/castleos/gthouse/fs/fslib.c:1889-1938 | The write call takes min(length, free) bytes in behind what is there, if fewer than 1024; else no byte and no offset changes. |
| `FileStream.SysRunStreams` | core/castleos/gthouse/fs/fslib.c:1137-1219 | Over every run of read and write calls the bytes returned are a prefix of what was there and was accepted since, and the rest lies between the offsets. |
| `FileStream.EnlargedFileRefusesWrites` | core/castleos/gthouse/fs/fslib.c:489-492 | A file of 1024 bytes or more, whose buffer was enlarged, takes no writes at all. |
| `FileStream.FileObject.SeekClear` | core/castleos/gthouse/libk/kstdio.c:1447-1459 | The clearing seek zeroes the first BUFSIZ bytes and resets all offsets. |
| `FileStream.ClearEmpties` | core/castleos/gthouse/libk/kstdio.c:1447-1459 | After the clearing seek the stream is empty over 1024 zero bytes and the rest of the buffer is unchanged. |
| `FileStream.Memcpy` | core/castleos/gthouse/libk/kstring.c:138-150 | Copies n bytes to their place and leaves the rest of the destination. |
| `FileStream.RunStreams` | core/castleos/gthouse/fs/fslib.c:231-389 | Every run of buffer writes, reads and clears keeps 0 <= _r <= _w and _w + _cnt == BUFSIZ; what was read since the last clear is a prefix of what was accepted, and the bytes between _r and _w are the rest. |
| `FileStream.OpenedFileStreams` | core/castleos/gthouse/fs/fslib.c:4272-4281 | An opened file shorter than BUFSIZ is such a stream, with its contents accepted and unread. |
| `FileStream.FullBufferRefusesWrites` | core/castleos/gthouse/fs/fslib.c:504-512 | A write on a full buffer is refused and leaves unread bytes and offsets intact. |
| `FileStream.WriteRepairs` | core/castleos/gthouse/fs/fslib.c:494-529 | A write that finds an offset or the count out of range is refused and leaves a proper stream with its bytes. |
| `FileStream.ReadRepairs` | core/castleos/gthouse/fs/fslib.c:254-291 | A read that finds its offset out of range hands out nothing and puts it back between 0 and the write offset. |
| `FileStream.AmountsMoved` | core/castleos/gthouse/fs/fslib.c:325-345 | A read moves min(len, unread) bytes and a write min(len, free). |
| `FileStream.WritesAreSeparatedByReads` | core/castleos/gthouse/fs/fslib.c:1889-1934 | Over every run of read and write calls two accepted writes have a non-empty read between them. |
| `FileStream.OpenedFileReadsBack` | core/castleos/gthouse/fs/fslib.c:4352-4354 | For every file of 1 to 8184 bytes and every sequence of read lengths the concatenated results are the prefix of that total length, then exactly the file, then 0. |
| `FileStream.OpenedFileIsReadByCalls` | core/castleos/gthouse/fs/fslib.c:1137-1219 | The same by read calls: any sequence of them on an opened file of 1 to 8184 bytes returns its contents up to the total asked for. |
| `FileStream.OpenedFileIsReadableIff` | core/castleos/gthouse/fs/fslib.c:243-252 | Files up to 8192 bytes open, but can be read if and only if they have at most 8184. |
| `FileStream.OpensIff` | core/castleos/gthouse/fs/fslib.c:4224-4265 | Files of 1 to 8192 bytes open, with a buffer of 1024 bytes or their size + 8. |
| `CString.GramadoStrncmp` | core/castleos/gthouse/libk/kstring.c:84-104 | The comparison loop computes the recursive comparison and stays inside both memories. |
| `CString.StrncmpIff` | core/castleos/gthouse/libk/kstring.c:84-104 | 0 if and only if n characters agree and both strings end right after them; NULs in between count as characters. |
| `CString.StrncmpLiteral` | core/castleos/gthouse/libk/kstring.c:84-104 | Against a literal and its length: exact string equality, never out of bounds, although only a prefix seems to be compared. |
| `CString.Strlen` | core/castleos/gthouse/libk/kstring.c:336-345 | The length of the string at the pointer. |
| `CString.Strcpy` | core/castleos/gthouse/libk/kstring.c:216-224 | Copies a string and its NUL to a place and nothing else. |
| `CString.Strcat` | core/castleos/gthouse/libk/kstring.c:277-291 | The string in the buffer becomes itself followed by the other one. |
| `Tokenizer.StrtokR` | core/castleos/gthouse/libk/kstring.c:623-685 | One call of the tokenizer: the token, the NUL written behind it, and the position remembered. |
| `Tokenizer.SkipDelimiters` | core/castleos/gthouse/libk/kstring.c:641-648 | The skip loop stops at the first character that is no delimiter. |
| `Tokenizer.ScanToken` | core/castleos/gthouse/libk/kstring.c:661-683 | The scan loop stops at the first delimiter or NUL. |
| `Tokenizer.MatchDelimiter` | core/castleos/gthouse/libk/kstring.c:645-648 | The inner loop decides membership in the delimiter string. |
| `Tokenizer.TokenizeAll` | core/castleos/gthouse/libk/kstring.c:687-696 | Calling until NULL terminates, with the tokens and memory of the recursive description. |
| `Tokenizer.RunsAreMaximal` | core/castleos/gthouse/libk/kstring.c:641-683 | Every run listed is a maximal stretch without delimiters, in order. |
| `Tokenizer.RunsAreComplete` | core/castleos/gthouse/libk/kstring.c:641-683 | No maximal stretch is missed. |
| `Tokenizer.DrainYieldsRuns` | core/castleos/gthouse/libk/kstring.c:623-685 | After the last call each pointer returned still reads as its run of the original string: later calls never damage earlier tokens. |
| `Tokenizer.TokensAreTheMaximalRuns` | core/castleos/gthouse/libk/kstring.c:623-696 | The main result: for any string and delimiters the tokens are exactly the maximal runs, in order and intact. |
| `Numerals.NumeralValue` | core/castleos/gthouse/libk/kstdio.c:848-853 | Evaluating a numeral gives the number back, in any base from 2 to 16. |
| `Numerals.NumeralIsUnique` | core/castleos/gthouse/libk/kstdio.c:848-853 | No other text of digits without a leading zero has that value. |
| `Numerals.NumeralHasNoLeadingZero` | core/castleos/gthouse/libk/kstdio.c:848-853 | A numeral consists of digits of its base and only zero starts with 0. |
| `Numerals.DigitsAreUsual` | core/castleos/gthouse/libk/kstdio.c:697-704 | The digits are 0 to 9 and then A to F, or a to f. |
| `Numerals.NumeralLength` | core/castleos/gthouse/libk/kstdio.c:512-526 | A number below b^k has at most k digits. |
| `Numerals.NumeralIsLong` | core/castleos/gthouse/libk/kstdio.c:512-526 | A number of at least b^k has more than k digits. |
| `Printing.DigitsBackwards` | core/castleos/gthouse/libk/kstdio.c:797-803 | The divide loop leaves the numeral backwards. |
| `Printing.ReverseInPlace` | core/castleos/gthouse/libk/kstdio.c:805-812 | The swap loop turns the stretch round and touches nothing else. |
| `Printing.UtoaR` | core/castleos/gthouse/libk/kstdio.c:790-815 | __utoa_r leaves the canonical decimal of every unsigned long. |
| `Printing.MagnitudeBackwards` | core/castleos/gthouse/libk/kstdio.c:842-858 | INT_MIN goes by way of INT_MAX and a raised last digit, and comes out right. |
| `Printing.KinguioItoa` | core/castleos/gthouse/libk/kstdio.c:834-870 | kinguio_itoa leaves the canonical signed decimal of every 32-bit int. |
| `Printing.Prints` | core/castleos/gthouse/libk/kstdio.c:425-476 | prints emits the string in its field and returns the number of characters emitted. |
| `Printing.DigitsFromRight` | core/castleos/gthouse/libk/kstdio.c:512-526 | The digit loop of printi leaves the numeral at the right end of the 12-byte buffer, in any base in which it fits. |
| `Printing.PrintBufferSuffices` | core/castleos/gthouse/libk/kstdio.c:492-526 | Ten digits suffice in base 10 and eight in base 16, with room for a sign. |
| `Printing.PrintBufferSufficesIff` | core/castleos/gthouse/libk/kstdio.c:492-526 | Among the bases from 2 to 16 the 12-byte buffer is enough for every int if and only if the base is at least 8. |
| `Printing.Printi` | core/castleos/gthouse/libk/kstdio.c:482-544 | printi emits sign, padding and digits as specified and returns their number, for every int and base whose digits fit. |
| `Printing.PrintersAgree` | core/castleos/gthouse/libk/kstdio.c:482-544 | With no field width signed printi and kinguio_itoa give the same text for every int. |
| `Printing.PrintiLength` | core/castleos/gthouse/libk/kstdio.c:425-544 | The output length is max(width, natural length), in both ways of placing the sign. |
| `Printing.FieldShape` | core/castleos/gthouse/libk/kstdio.c:425-476 | The text is at the left end with PAD_RIGHT and else at the right end, and the rest is zeros with PAD_ZERO and else blanks. |
| `Printing.PrintiUnsignedValue` | core/castleos/gthouse/libk/kstdio.c:496-526 | Without a sign the digits evaluate to the int modulo 2^32. |
| `Printing.NibblesFromRight` | core/castleos/gthouse/libk/kstdio.c:697-704 | The nibble loop leaves exactly len hexadecimal digits. |
| `Printing.StrcpyDown` | core/castleos/gthouse/libk/kstring.c:216-224 | A copy to an earlier place of the same buffer, overlapping, loses nothing. |
| `Printing.ShiftOutZeros` | core/castleos/gthouse/libk/kstdio.c:706-721 | The search for the first non-zero digit and the shift over itself leave the text without leading zeros. |
| `Printing.KinguioI2hex` | core/castleos/gthouse/libk/kstdio.c:678-730 | The hexadecimal printer for any value and length: the low len digits without leading zeros, then NULs. |
| `Printing.HexIsCanonical` | core/castleos/gthouse/libk/kstdio.c:678-730 | For every value below 16^len that is the unique numeral of the value. |
| `Printing.FixedHexValue` | core/castleos/gthouse/libk/kstdio.c:697-704 | For any value the len digits evaluate to its remainder modulo 16^len. |
| `Printing.KinguioUtoa` | core/castleos/gthouse/libk/kstdio.c:817-832 | Exact in both radices for every unsigned long. |
| `Atoi.KAtoi` | core/castleos/gthouse/libk/kstdlib.c:64-99 | The parse loops compute the recursive parse with 32-bit wrap-around. |
| `Atoi.AtoiReads` | core/castleos/gthouse/libk/kstdlib.c:64-99 | On any text: what is neither digit nor sign is skipped, one sign of either kind is taken, and the digits read as their value wrapped to 32 bits, negated behind a minus; no digits read as 0. |
| `Atoi.AtoiInvertsPrinting` | core/castleos/gthouse/libk/kstdlib.c:64-99 | k_atoi inverts signed decimal printing for every 32-bit int, behind any text without digits or signs and before any non-digit. |
| `Atoi.AtoiInvertsFields` | core/castleos/gthouse/libk/kstdlib.c:64-99 | k_atoi reads back what printi prints in a field of any width, with blanks on either side or zeros in front. |
| `Atoi.NeverOverflows` | core/castleos/gthouse/libk/kstdlib.c:88-92 | For every value up to INT_MAX no intermediate value exceeds the final one, so no wrap-around happens. |
| `DosName.UpcaseBase` | core/castleos/gthouse/fs/fslib.c:3216-3228 | The first loop upper-cases up to the dot or the end. |
| `DosName.CollectExt` | core/castleos/gthouse/fs/fslib.c:3253-3300 | The extension loop keeps lower-case letters (raised), digits and eight signs, and blanks the rest. |
| `DosName.Complete` | core/castleos/gthouse/fs/fslib.c:3306-3352 | The padding loops write base, spaces, extension and NUL. |
| `DosName.Convert` | core/castleos/gthouse/fs/fslib.c:3184-3352 | The in-place conversion equals the closed form of length max(8, base) + 3; no extension byte is lost to the overwrite. A long name without a dot takes its extension from memory behind the terminator. |
| `DosName.PickExt` | core/castleos/gthouse/fs/fslib.c:3238-3300 | Which three extension bytes are used: the preset ones, those behind the dot, or those behind the terminator of a long name without a dot. |
| `DosName.FsFntos` | core/castleos/gthouse/fs/fslib.c:3184-3352 | The converter that adds BIN to names without a dot. |
| `DosName.FsFntos2` | core/castleos/gthouse/fs/fslib.c:3356-3526 | The converter that adds three spaces. |
| `DosName.ConvertersDifferOnlyInPreset` | core/castleos/gthouse/fs/fslib.c:3356-3526 | The converters agree on dotted names and otherwise differ in the last three bytes only. |
| `DosName.ConvertedBase` | core/castleos/gthouse/fs/fslib.c:3216-3228 | Each base character stays the same but for case and none is left in lower case; then blanks up to eight; a base without lower-case letters is kept as it is. |
| `DosName.ConvertedExtension` | core/castleos/gthouse/fs/fslib.c:3253-3300 | Each of the three extension bytes: a lower-case letter becomes its upper-case form, digits and the eight signs stay, everything else and everything missing is blank. |
| `DosName.ConvertedHasNoLowerCase` | core/castleos/gthouse/fs/fslib.c:3184-3352 | No lower-case letter is left anywhere. |
| `DosName.ExtensionSurvivesIff` | core/castleos/gthouse/fs/fslib.c:3263-3291 | The extension field is the upper-cased extension if and only if it was written with lower-case letters, digits, kept signs or spaces: upper-case letters are blanked. |
| `DosName.Strncpy` | core/castleos/gthouse/libk/kstring.c:226-245 | Cuts the string to n characters or fills it with NULs up to n. |
| `DosName.SearchInDir` | core/castleos/gthouse/fs/search.c:65-247 | For any name and directory image: found if and only if the name is acceptable and some entry in use has exactly its eleven bytes. |
| `DosName.FoundInBytes` | core/castleos/gthouse/fs/search.c:195-241 | The scan in bytes: 512 entries of 32 bytes, those that start with NUL, 0xE5 or a dot passed over, eleven bytes compared, a shorter name only matching one filled with NULs. |
| `DosName.ConvertThenSearchIff` | core/castleos/gthouse/fs/search.c:195-241 | A converted name is found if and only if it does not start with a slash and some entry in use has its bytes, which takes a base of at most 8. |
| `DosName.LookUp` | core/castleos/gthouse/fs/fslib.c:4028-4048 | The two steps as the open path makes them, on the name in place. |
| `DosName.BaseCaseNeverMatters` | core/castleos/gthouse/fs/fslib.c:3216-3228 | Names whose bases differ only in letter case, by place in the alphabet, convert alike and are found alike. |
| `PathWalk.FsCountPathLevels` | core/castleos/gthouse/fs/fslib.c:2573-2601 | Counts the slashes of the first 2000 characters. |
| `PathWalk.ScanLevel` | core/castleos/gthouse/fs/fsload.c:329-352 | The twelve-character scan and the copy into the name buffer. |
| `PathWalk.AppendExt` | core/castleos/gthouse/fs/fsload.c:398-440 | Up to three extension characters, padded with spaces. |
| `PathWalk.LoadFileLevel` | core/castleos/gthouse/fs/fsload.c:352-497 | The branch for a name with a dot, its panics included. |
| `PathWalk.DirectoryLoad` | core/castleos/gthouse/fs/fsload.c:529-587 | A directory name padded to eleven, searched in the current directory, loaded to the buffer of its level. |
| `PathWalk.LoadDirectory` | core/castleos/gthouse/fs/fsload.c:512-600 | The branch for a name that ends in a slash: 0 or 11 characters panic, else one load, and a panic if it fails. |
| `PathWalk.LoadLevel` | core/castleos/gthouse/fs/fsload.c:314-605 | One round of the level loop. |
| `PathWalk.WalkLevels` | core/castleos/gthouse/fs/fsload.c:314-605 | The level loop, from the root directory on. |
| `PathWalk.FsLoadPath` | core/castleos/gthouse/fs/fsload.c:213-605 | The whole walk equals the recursive walk, for any memory and any pattern of load failures. |
| `PathWalk.WalkFollowsPath` | core/castleos/gthouse/fs/fsload.c:314-605 | Along a path whose loads succeed exactly the expected loads are made, in order. |
| `PathWalk.LoadedOnlyAlongPath` | core/castleos/gthouse/fs/fsload.c:314-605 | Conversely, a successful walk ran along such a path and made exactly its loads. |
| `PathWalk.EveryWalkIsAChain` | core/castleos/gthouse/fs/fsload.c:572-596 | For any memory and failures: each load is searched where the one before put its directory, no buffer is written twice, none follows a failure, and success means the last one went to the caller. |
| `PathWalk.PathIsLoaded` | core/castleos/gthouse/fs/fsload.c:276-605 | The passable half, under the weaker assumption that just the expected loads succeed: at most three directories of 1 to 10 or 12 characters, then a base of 1 to 8. |
| `PathWalk.PathOutcome` | core/castleos/gthouse/fs/fsload.c:276-605 | The whole result for every path with a dot in its last name, whatever the number and length of its names: which directories are loaded, and whether the walk ends loaded, in a panic, or returns failure. |
| `PathWalk.LoadedIff` | core/castleos/gthouse/fs/fsload.c:281-605 | Loaded if and only if there are at most three directories, each with a name of 1 to 10 or exactly 12 characters, and the base has 1 to 8. |
| `PathWalk.EveryLoadAsks` | core/castleos/gthouse/fs/fsload.c:383-440 | Whatever comes of the walk, the k-th directory load asks for the k-th loaded name, blank to eleven, and the last load for the base blank to eight and the extension blank to three. |
| `PathWalk.ArgumentsRefused` | core/castleos/gthouse/fs/fsload.c:248-309 | No address, no buffer or no leading slash is a panic before any load. |
| `PathWalk.ImpassableStops` | core/castleos/gthouse/fs/fsload.c:319-604 | Any other directory name ends the walk: in a panic, except that a name of 13 or more returns failure if no further level was counted. |
| `PathWalk.FileNameOutcome` | core/castleos/gthouse/fs/fsload.c:352-497 | The last level for a base of any length: 1 to 8 loads, 0 and 9 to 11 panic, 12 and more return failure. |
| `PathWalk.DottedStringSuffices` | core/castleos/gthouse/fs/fsload.c:329-604 | With a dot in the last name the result depends on the string alone, whatever its other names, loads and failures. |
| `PathWalk.StringSufficesIff` | core/castleos/gthouse/fs/fsload.c:329-604 | Along passable directories the result depends on the string alone if and only if the last name has a dot or at least 11 characters: a shorter one is read on behind its terminator. |
| `PathWalk.OneLoadPerComponentIff` | core/castleos/gthouse/fs/fsload.c:329-604 | For any number of directory names of any length and any base: the walk succeeds with one load per component if and only if there are at most three directories, each of 1 to 10 characters, and the base has 1 to 8; the loads are then those of the components in order, from the root down, each in the buffer of its level. |
| `PathWalk.TwelveCharacterDirectoryIsSkipped` | core/castleos/gthouse/fs/fsload.c:329-604 | The file behind a twelve-character directory is looked for in the root directory. |
| `HttpRequest.CopyToken` | core/castleos/gthouse/gramnet/http.c:104-109 | Each copy loop takes the token up to a stop character, the end or a full buffer, and terminates it. |
| `HttpRequest.ParseRest` | core/castleos/gthouse/gramnet/http.c:114-133 | The URI and the version. |
| `HttpRequest.ParseRequestLine` | core/castleos/gthouse/gramnet/http.c:92-134 | The parser on three fixed buffers, success and failure. |
| `HttpRequest.ParsePrint` | core/castleos/gthouse/gramnet/http.c:92-134 | Printing any request that fits (section 3 of RFC 9112) and parsing it gives it back, whatever follows the line. |
| `HttpRequest.Limits` | core/castleos/gthouse/gramnet/http.c:104-133 | Methods of up to 7, URIs of up to 255 and versions of up to 15 characters are taken whole. |
| `HttpRequest.OverLimits` | core/castleos/gthouse/gramnet/http.c:104-133 | A method of 8 or more or a URI of 256 or more characters is refused whatever follows; a longer version is cut at 15. |
| `HttpRequest.ParsedIsPrinted` | core/castleos/gthouse/gramnet/http.c:92-134 | Any success means the payload begins with the printed request; only the version may have been cut, at fifteen characters. |
| `HttpRequest.ParseSucceedsIff` | core/castleos/gthouse/gramnet/http.c:110-122 | Success if and only if the payload starts with a method and a URI that fit, each followed by a space: over-long ones are rejected, never cut. |
| `HttpRequest.Test` | core/castleos/gthouse/gramnet/http.c:194-194 | A routing test is exact string equality. |
| `HttpRequest.RouteUri` | core/castleos/gthouse/gramnet/http.c:194-243 | The nine tests in order, a later match overriding an earlier one. |
| `HttpRequest.ParseFirstLine` | core/castleos/gthouse/gramnet/http.c:136-249 | Method, route and parameter of a request, from its tokens up to their first NUL if they contain one; all zero on failure. |
| `HttpRequest.LastMatchIsLookup` | core/castleos/gthouse/gramnet/http.c:194-243 | With distinct URIs a sequence of overriding tests is an exact-match lookup. |
| `HttpRequest.RouteIsIndependentOfOrder` | core/castleos/gthouse/gramnet/http.c:194-243 | Any order of the tests gives the same route. |
| `HttpRequest.RouteIff` | core/castleos/gthouse/gramnet/http.c:194-243 | For every URI: the target of the test it equals, and none if and only if it equals no test. |
| `HttpRequest.Routes` | core/castleos/gthouse/gramnet/http.c:194-243 | The route and parameter number of each of the nine URIs. |
| `HttpRequest.NoOtherRoute` | core/castleos/gthouse/gramnet/http.c:194-243 | No other URI has one. |
| `HttpRequest.Methods` | core/castleos/gthouse/gramnet/http.c:168-175 | GET is 1, POST is 2, everything else 0. |
| `HttpResponse.LengthToDecimal` | core/castleos/gthouse/gramnet/http.c:313-340 | The length digits are the canonical decimal. |
| `HttpResponse.Flip` | core/castleos/gthouse/gramnet/http.c:335-340 | The second loop writes the digits the right way round. |
| `HttpResponse.Assemble` | core/castleos/gthouse/gramnet/http.c:348-390 | The strcat chain leaves the pieces one behind the other. |
| `HttpResponse.BuildView` | core/castleos/gthouse/gramnet/http.c:311-397 | The view builder leaves the whole response in the buffer and returns its size. |
| `HttpResponse.SplitsAtBlankLine` | core/castleos/gthouse/gramnet/http.c:381-388 | For any header lines and body, splitting at the first blank line gives both back. |
| `HttpResponse.LinesOfJoin` | core/castleos/gthouse/gramnet/http.c:348-381 | Taking joined header lines apart at their line ends gives them back. |
| `HttpResponse.ClientRecoversBody` | core/castleos/gthouse/gramnet/http.c:348-397 | A client that reads the response text alone (first blank line, header lines, look-up by name) gets the status, the body, the digits of its length (section 6.2 of RFC 9112), the content type, and a connection kept alive for POST only. |

## Left out

- DpcQueue.DeliveryTime: takes a post and a poll each as one step; the code publishes the message code before the payload, so between statements another processor could see a half-written slot.
- FdTable.Kernel.Open: the lookup of the name among the devices is the parameter `dev`.
- FdTable.Kernel.OpenFile: a failed allocation of the file and of its buffer are one outcome; the structure that a failure after allocation leaves behind, named by no descriptor, is not kept.
- FdTable.Kernel.CloneDescriptors: the two connector files that a terminal's clone adds afterwards are separate uncounted stores.
- Printing.Printi: bases from 2 to 16 (callers pass 10 and 16) whose digits fit the 12-byte buffer; below base 8 some ints would run below it.
- Printing.DigitsFromRight: the same condition, on the digits of the number.
- HttpResponse.LengthToDecimal: lengths of fewer than eight digits, which is what the length buffer holds with its terminator.
- HttpResponse.BuildView: bodies of fewer than ten million bytes, since the length buffer holds seven digits; the body is a parameter, one builder stands for all views.
- Mailbox.SocketFile.ReadImp: local sockets only; connected internet sockets are handed to the TCP code, which is not part of this model.
- FileStream.FileObject.Open: the disk load is the precondition that the buffer starts with the file's content.
- Pipes, sockets and terminal connectors in descriptor tables: only the uncounted store that puts each of them there (`FdTable.Op.Store`), not the routines around it.
- F_SETFL, k_setbuf and the other seek requests: they set flags and offsets outside the stream invariant.
- Flag bits other than __SRD and __SWR, and the synchronisation action field.
- Looking up and validating the current process before each call, null pointer checks, and the special cases for descriptors 0 to 2 in the read and write calls.
- Booting, interrupt controllers, the scheduler, terminals, TCP and the console: hardware or input and output.
- The FAT16 load and save routines themselves.
- kinguio_vsprintf and kinput: variable arguments and display plumbing.
- strspn and strcspn, whose loop condition is an assignment.
- HTML text, reply strings, user programs and the window system.

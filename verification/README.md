# Verification model of AxOS

AxOS is a small operating system in C with Python image builders. This project
models the parts of it that carry deep invariants and proves them in Dafny:

- **FAT12 volume** (`Fat12*.dfy`, `MakeFat12.dfy`). The RAM copy of the volume is one
  byte array. A ghost partition of it into boot sector, FAT, directory and data area,
  and a ghost list of cluster chains, carry the invariant: chains are acyclic,
  disjoint, in range and long enough for the file sizes. The image builder is checked
  against the driver that reads its images.
- **Kernel heap** (`Heap*.dfy`, `Memory.dfy`). The arena is a byte array; headers,
  redzones and canaries are decoded from it. `HeapBlocks` and `HeapRuns` specify the
  block list and the quarantine over whole runs, `HeapMemory` and `HeapFacts` connect
  them to bytes, `Heap` has malloc and free as they work in place, and `HeapTraces` and
  `HeapAlignment` say what holds over runs of them.
- **TCP** (`Tcp*.dfy`, `Checksum.dfy`). `Tcp` and `TcpServer` say what each call does to a
  slot and to the four slots; `TcpMux` and `TcpReceive` do it in place; `TcpSystem`
  joins sender, unreliable network and receiver into one step system (section 3 of
  RFC 793), with progress in `TcpProgress` and the client's direction in `TcpRequest`;
  `TcpClients` follows one client of the server, and `TcpWire` maps segments to frames.
- **AxCalc arithmetic** (`Decimal`, `Bignum`, `Division`, `SquareRoot`): arbitrary-length
  decimals, long division, and the error of sixty truncated Newton steps.
- **Scheduler** (`Scheduling`, `Waking`, `Processes`, `Tasking`): weighted round robin on a
  linked ring, sleepers and readers, and the program slots that exec, fork and exit pass
  around.
- **Loader and page tables** (`Elf*.dfy`, `MakeElf`, `PageWalk`, `Paging`, `ProgramPages`).
- **Virtio receive ring** (`VirtioQueue`, `VirtioNet`): driver and device as a protocol.

The pattern is the same throughout: methods that update arrays, fields or links in
place are proved equal to functions on values, and the theorems are about those
functions and about whole runs of them.

Conventions. Machine integers are mathematical ones with the wrap-around of the C
types written out where it can occur. Random numbers, clocks, tags, sequence numbers
and what the network card delivers are arguments, so every statement holds for all
of them. A malloc that the kernel could fail in is a Boolean argument. Interrupts do
not re-enter the modelled calls.

Where the code and its own documentation disagree, the model follows the code:

- `elf_load` aligns the shifted code/data boundary by the choice of the load offset;
  the comment in `paging.c` credits the linker script alone. `ElfFormat.DeltaAligns` says
  exactly when it can, `ElfFormat.UnshiftedMisaligned` gives a program for which it cannot.
- `paging.c` adds load offset and boundary in 32 bits, and `elf_load` does not bound the
  boundary of a file. `ProgramPages.ProgramSplits` says exactly when code and data get
  their rights, `ProgramPages.WrappingFile` gives a file for which the sum wraps around.
- `heap.h` promises 4-byte alignment; the code rounds requests to 8 bytes and does not
  align blocks after a split. `HeapAlignment.PointersDrift` says which pointers of
  consecutive requests are aligned: every other one.
- A file whose 8.3 name starts with the byte 0xE5 can be written but not found again
  (`Fat12Files.UnfindableName`); `Fat12Files.FindableExact` and `Fat12Files.Write` say
  exactly when that happens.
- `do_exec` keeps a slot taken when there is no memory for its task; `Processes.LostExactly`
  shows that this is how, and the only way how, slots are lost in any run.

## Model

| member | source | states |
|---|---|---|
| Fat12Table.EntryAfterSet | src/fs/fat12.c:190-201 | storing one 12-bit entry changes that entry to the stored value and no other entry, although neighbours share a byte |
| Fat12Table.TableDetermines | src/fs/fat12.c:128-138 | two FATs with the same entries, and the same bytes behind the last entry, are the same bytes |
| Fat12Table.EntryNibbles | src/fs/fat12.c:128-138 | an entry is made of three consecutive half bytes of the FAT, the first being the lowest |
| Fat12Chains.FirstFreeCount | src/fs/fat12.c:224-243 | the scan finds as many clusters as asked for exactly when that many are free |
| Fat12Chains.AllocatedChain | src/fs/fat12.c:224-251 | allocating links exactly the chosen free clusters into one chain whose last entry is 0xFFF; every other entry is as before, and freeing that chain gives back the old table |
| Fat12Chains.PartialChain | src/fs/fat12.c:241-248 | the rollback of a scan that found too few clusters gives back the old table |
| Fat12Chains.FreeOwned | src/fs/fat12.c:212-219 | freeing one file's chain leaves all other chains in place, disjoint and in range |
| Fat12Chains.AllocateOwned | src/fs/fat12.c:224-251 | a new chain given to an empty entry is disjoint from all chains in use, which stay in place |
| Fat12Chains.AllocateUnowned | src/fs/fat12.c:224-251 | a new chain that no findable entry owns also disturbs no chain in use |
| Fat12Layout.FindIsFirstMatch | src/fs/fat12.c:289-302 | fat12_find returns the first used entry with the name before the end marker, and none exactly when there is none |
| Fat12Layout.FindFrame | src/fs/fat12.c:289-302 | changing one directory entry changes the result of a search only for the entry's old and new name |
| Fat12Layout.ClustersApart | src/fs/fat12.c:263-270 | different clusters occupy disjoint stretches of the data area |
| Fat12Layout.StoredElsewhere | src/fs/fat12.c:255-274 | writing a chain leaves every cluster outside it unchanged |
| Fat12Layout.StoredReadsBack | src/fs/fat12.c:255-274 | what is written along a chain of distinct clusters is what reading along the chain gives |
| Fat12.Volume.constructor | src/fs/fat12.c:99-115 | fat12_init: ready exactly when the disk can be read and its boot sector says 512 bytes per sector, whatever else it says; the bytes of the disk are the volume |
| Fat12.Volume.GetEntry | src/fs/fat12.c:128-138 | reads the 12-bit entry that the FAT bytes encode |
| Fat12.Volume.PutEntry | src/fs/fat12.c:190-201 | changes the FAT bytes to those of the stored entry, and no other part of the volume |
| Fat12.Volume.FreeChain | src/fs/fat12.c:212-219 | zeroes exactly the entries of the chain |
| Fat12.Volume.LinkFree | src/fs/fat12.c:224-240 | links the first free clusters in order |
| Fat12.Volume.AllocChain | src/fs/fat12.c:224-251 | returns the start of a new chain of n free clusters and changes nothing else, or 0 with the whole volume unchanged; 0 exactly when n is 0 or fewer than n clusters are free |
| Fat12Io.WriteChainData | src/fs/fat12.c:255-274 | stores the data along the chain, and nowhere else |
| Fat12Io.ReadChain | src/fs/fat12.c:306-330 | copies the first bytes of the chain's contents, cut to the size and to the buffer |
| Fat12State.EmptiedSound | src/fs/fat12.c:524-529 | an entry whose chain was freed leaves a sound volume |
| Fat12State.FilledSound | src/fs/fat12.c:541-552 | an entry given a new chain and size leaves a sound volume |
| Fat12State.FilledElsewhere | src/fs/fat12.c:541-552 | filling an entry leaves the contents under every other name unchanged |
| Fat12State.FilledEntry | src/fs/fat12.c:541-552 | filling an entry leaves every other entry, file or directory, with its 32 bytes, its chain and every byte of its clusters |
| Fat12State.EmptiedEntry | src/fs/fat12.c:524-529 | so does emptying one |
| Fat12State.FilledHere | src/fs/fat12.c:541-552 | after filling, the entry's own name yields the stored bytes |
| Fat12Names.ParseName | src/fs/fat12.c:160-182 | the loops of parse_83 compute the padded upper-case 8.3 name, for every input |
| Fat12Names.ParsedBytes | src/fs/fat12.c:160-182 | the 8.3 name byte by byte: small letters become capitals, and spaces fill the base to 8 and the extension to 3 characters |
| Fat12Names.NamesAgree | tools/make_fat12.py:43-47 | the builder's 8.3 name of a file is the one the driver looks for exactly when the base has at most eight characters or the extension is blank |
| Fat12Files.FindEntry | src/fs/fat12.c:289-302 | the search loop finds what the directory bytes define |
| Fat12Files.FindFreeEntry | src/fs/fat12.c:277-286 | the search loop finds the first unused entry |
| Fat12Files.Load | src/fs/fat12.c:473-483 | copies min(size, buffer) bytes of the file under the name, nothing for an unknown name, and leaves the volume unchanged |
| Fat12Files.FileHeader | src/fs/fat12.c:522-527 | the first 26 bytes of a new file: the name, attribute 0x20, and zeros |
| Fat12Files.PrepareEntry | src/fs/fat12.c:519-529 | the entry of the name: a new one has the name, attribute 0x20 and zeros in its first 26 bytes, a present one keeps them; its old clusters are free and no other entry changed |
| Fat12Files.FillEntry | src/fs/fat12.c:531-553 | succeeds exactly when enough clusters are free; on failure nothing changed |
| Fat12Files.CountWraps | src/fs/fat12.c:538-539 | the 32-bit cluster count wraps only for sizes that no volume can hold, and then the write fails as it should |
| Fat12Files.NeededExact | src/fs/fat12.c:538-539 | a number of clusters is enough exactly when it holds the bytes, and the count computed is the least such |
| Fat12Files.EmptiedSummary | src/fs/fat12.c:524-529 | emptying an entry keeps the volume sound, loses no cluster, changes no other name, and keeps every other file and directory byte for byte |
| Fat12Files.FilledSummary | src/fs/fat12.c:541-552 | filling an entry keeps the volume sound, changes no other name, and keeps every other file and directory byte for byte; the name yields the data exactly when its first byte is not a marker |
| Fat12Files.Write | src/fs/fat12.c:512-554 | on every ready, unlocked, sound volume: success exactly when there is an entry and the free clusters and those of the old file hold the data; soundness, all other names, and every other entry with its attribute, chain and clusters kept in every case; the name yields exactly the data afterwards (or is empty after a failure for space), in as few clusters as hold it; a new entry has byte 11 equal to 0x20 and bytes 12 to 25 zero, a present one keeps its first 26 bytes; and exactly when clusters are leaked |
| Fat12Files.FindableExact | src/fs/fat12.c:289-302 | a file can be found under its name exactly when the name does not begin with the byte 0xE5 |
| Fat12Files.UnfindableName | src/fs/fat12.c:289-302 | a name that can be written and never found again |
| Fat12Dirs.Delete | src/fs/fat12.c:489-505 | removes the name and frees its clusters; all other names, and every other file and directory with its clusters, are kept; refuses exactly as documented |
| Fat12Dirs.CreatedSummary | src/fs/fat12.c:395-450 | a new entry with a new chain keeps the volume sound, every other name as it was, and every other file and directory byte for byte |
| Fat12Dirs.CreatedDuplicate | tools/make_fat12.py:121-128 | an entry written behind one of the same name is stored soundly and never found: every lookup is as before |
| Fat12Dirs.DotsSpelled | src/fs/fat12.c:419-448 | the first 64 bytes of a new directory: "." with its own cluster, ".." with cluster 0, both with attribute 0x10, and zeros behind them |
| Fat12Dirs.Mkdir | src/fs/fat12.c:395-450 | when each result occurs, and that the new entry has attribute 0x10 and zeros behind it, and a cleared cluster with the two dot entries, while every other file and directory keeps its entry and its clusters |
| Fat12Dirs.WriteThenLoad | src/fs/fat12.c:512-554 | a successful write followed by a load gives the data back byte for byte exactly when the name is findable or the data empty |
| Fat12Dirs.AllocThenFree | src/fs/fat12.c:212-251 | allocating and freeing a chain restores the volume byte for byte |
| MakeFat12.BootGeometry | tools/make_fat12.py:57-81 | the boot sector the builder writes gives the driver the builder's own layout |
| MakeFat12.PutEntry | tools/make_fat12.py:33-40 | the builder's entry encoding is the driver's |
| MakeFat12.RunIsAllocated | tools/make_fat12.py:110-120 | linking consecutive clusters is what the driver's allocation of them would do |
| MakeFat12.PlaceFile | tools/make_fat12.py:111-119 | one file's clusters hold its data and are linked as the driver expects |
| MakeFat12.FileRecorded | tools/make_fat12.py:105-128 | adding a file keeps the image a sound volume in which every name so far yields the first file that has it |
| MakeFat12.Build | tools/make_fat12.py:50-138 | fails exactly on too many files or too many clusters; otherwise the image is a sound volume without lost clusters in which every 8.3 name yields the bytes of the first file that has it, colliding names included, and each entry carries its 8.3 name, attribute 0x20 and zeros |
| MakeFat12.AsciiFindable | tools/make_fat12.py:43-47 | names in ASCII are always findable |
| MakeFat12.BuildAndLoad | tools/make_fat12.py:104-138 | the driver's fat12_load on the built image returns every file, the first with its 8.3 name, byte for byte |
| HeapBlocks.ReservedCovers | src/kernel/heap.c:300-307 | the 32-bit size of a reservation covers request, redzone and canary exactly when the request is at most 0xFFFFFFE0 |
| HeapBlocks.BlocksApart | src/kernel/heap.c:315-346 | blocks never overlap: the list tiles the arena in address order |
| HeapBlocks.GrantKeeps | src/kernel/heap.c:315-357 | granting a free block, cut or whole, keeps the tiling, the absence of free neighbours and the room for guards |
| HeapBlocks.ReleaseKeeps | src/kernel/heap.c:363-387 | releasing a block and joining it with both neighbours keeps the tiling and leaves no two free neighbours |
| HeapBlocks.ReleaseOthers | src/kernel/heap.c:363-387 | a release leaves every other used block as it was |
| HeapRuns.MallocGrants | src/kernel/heap.c:300-357 | malloc returns null exactly for an empty request or when no free block has room; otherwise the area is as large as requested and apart from every live and every quarantined block |
| HeapRuns.FirstFitExact | src/kernel/heap.c:300-330 | malloc takes the first free block that holds the request rounded up to 8 and 26 bytes more, and splits it exactly when a header and 16 bytes are left over |
| HeapRuns.MallocSound | src/kernel/heap.c:300-357 | malloc keeps the heap sound, quarantine included |
| HeapRuns.FreeSound | src/kernel/heap.c:389-438 | free keeps the heap sound: the quarantine holds exactly the held blocks, each once |
| HeapRuns.FreedStays | src/kernel/heap.c:389-438 | through every run of calls with at most seven further frees a freed block stays where it is, in its place of the ring |
| HeapRuns.DoubleFreeHalts | src/kernel/heap.c:413-415 | in that span, freeing the block again halts |
| HeapRuns.EighthFreeEvicts | src/kernel/heap.c:389-399 | the eighth later free evicts it, and its bytes then lie in a free block |
| HeapTraces.CallKeeps | src/kernel/heap.c:401-438 | no malloc, no client's write and no free but the eighth later one touches a byte of a quarantined block |
| HeapTraces.FreedDataStays | src/kernel/heap.c:401-438 | from its free on, through every run of mallocs, client writes and at most seven further frees, every byte of a freed block reads as before the free |
| HeapTraces.EvictedIsPoisoned | src/kernel/heap.c:363-399 | the eighth free after its own overwrites every user byte of the block with 0xDD |
| HeapTraces.LiveStays | src/kernel/heap.c:300-438 | no call but its own free moves a live block or touches its guard bytes |
| HeapTraces.DamageIsFound | src/kernel/heap.c:419-430 | when the guards of a live block are overwritten and any run of calls follows, its free halts with an underflow if a redzone byte was changed, with an overflow if only canary bytes were, and accepts it if neither was |
| HeapAlignment.FreshRun | src/kernel/heap.c:300-357 | consecutive requests after init_heap lie one behind the other, each split off the one free block |
| HeapAlignment.PointersDrift | src/kernel/heap.c:300-336 | the k-th pointer of such requests is 2k beyond a multiple of 8: exactly every other one is 4-byte aligned, although heap.h promises all |
| HeapAlignment.TwoRequests | src/kernel/heap.c:300-336 | two requests of 8 bytes are an input for which it fails |
| HeapMemory.DecodeEncoded | src/kernel/heap.c:175-181 | a header written to memory reads back field by field |
| HeapMemory.CutLinked | src/kernel/heap.c:316-330 | two header writes inside a free block turn the list in memory into the cut list |
| HeapMemory.MergeLinked | src/kernel/heap.c:374-386 | rewriting one header turns the list in memory into the joined list |
| HeapFacts.ReleaseSteps | src/kernel/heap.c:370-386 | marking free, joining the next and joining the previous block, in the code's order, is the merge of all free neighbours |
| HeapFacts.ClientFacts | src/kernel/heap.c:300-357 | a client that writes inside its area disturbs no header and no guard |
| HeapFacts.FreeExact | src/kernel/heap.c:410-430 | free of a live block, read off the bytes of the arena: accepted exactly when the eight bytes at 40 are 0xBE and each of the last 18 is 0xAC xor its tag byte; an underflow is reported exactly when one of the former is not, an overflow when only one of the latter is not |
| HeapFacts.LiveFreeIsDone | src/kernel/heap.c:401-438 | free of a live block never reports corruption while owners keep inside their areas |
| HeapFacts.HeldFreeIsDouble | src/kernel/heap.c:413-415 | free of a quarantined block reports a double free |
| Heap.KernelHeap.constructor | src/kernel/heap.c:284-298 | one free block that covers the arena, and an empty quarantine |
| Heap.KernelHeap.Malloc | src/kernel/heap.c:300-357 | first fit on the bytes of the arena: the new block list is the specified one, the block carries intact guards, and nothing outside it is written |
| Heap.KernelHeap.Carve | src/kernel/heap.c:317-330 | splits a block by two header writes, when the rest is worth it |
| Heap.KernelHeap.Stamp | src/kernel/heap.c:339-348 | sets header, redzone and tag-keyed canary of the block |
| Heap.KernelHeap.ClientWrite | src/kernel/heap.c:346-348 | writes inside a user area keep the heap valid and all guards intact |
| Heap.KernelHeap.CheckRedzone | src/kernel/heap.c:420-423 | finds a damaged redzone |
| Heap.KernelHeap.Free | src/kernel/heap.c:401-438 | which of the six outcomes occurs, for a live block by its guard bytes alone; on success the block goes to quarantine, no data byte of any used or quarantined block changes, and a block evicted from the full quarantine is poisoned |
| Heap.KernelHeap.QuarantinePush | src/kernel/heap.c:389-399 | the ring array holds the last eight freed blocks, the evicted one is released |
| Heap.KernelHeap.ReleaseFromQuarantine | src/kernel/heap.c:363-387 | sets the user bytes to 0xDD and joins the block with its free neighbours |
| TcpSystem.HandshakeOpens | src/user/tcp.h:650-694 | the handshake with a client in tcp_connect puts both ends in step |
| TcpSystem.SenderStep | src/user/tcp.h:574-595 | every call keeps the queue the tail of the accepted bytes, and everything sent carries the stream's bytes at its offset |
| TcpSystem.StaleAck | src/user/tcp.h:701-702 | the signed comparison takes an old acknowledgement number for a new one exactly when it is more than 2^31 behind |
| TcpSystem.DeliveredIsPrefix | src/user/tcp.h:342-386 | for every run of calls, timers, losses, duplications and reorderings, and any segments sent to the server: the receiver has a prefix of the accepted bytes, and sees the end only with all of them (stream below 2^32 bytes) |
| TcpSystem.RetransmissionsAgree | src/user/tcp.h:574-637 | everything ever sent with data at one sequence number carries the same bytes |
| TcpSystem.NothingLost | src/user/tcp.h:696-719 | with acknowledgements from the receiver only and streams up to 2^31 bytes, each accepted byte is delivered or still queued, and FIN is sent only when all are delivered |
| TcpProgress.CloseIsKept | src/user/tcp.h:574-595 | in every run queued data is in flight; an open connection that was closed has data queued; and a closing one was closed by the application and has its FIN on the wire, behind all accepted bytes |
| TcpProgress.FlightArrives | src/user/tcp.h:342-386 | delivering what is in flight gives the receiver exactly the next bytes |
| TcpProgress.AnswerArrives | src/user/tcp.h:696-719 | the receiver's answer to it takes it off the queue and starts what is next: more data, or the deferred FIN |
| TcpProgress.RunDrains | src/user/tcp.h:574-719 | from every state of a run in which the receiver has what the sender has seen acknowledged, a network that delivers takes all accepted bytes across, and the receiver sees the end exactly if the connection was ever closed |
| TcpRequest.TakesNext | src/user/tcp.h:721-734 | a segment that is next in order adds its bytes to the request, up to 512, and is acknowledged in full; any other brings nothing |
| TcpRequest.RequestIsPrefix | src/user/tcp.h:721-734 | whatever is lost, repeated or reordered on the way, the request buffer holds the first 512 of the bytes taken so far of the client's stream |
| TcpClients.NewClient | src/user/tcp.h:653-676 | a client without a slot gets one exactly for a SYN, with a known hardware address and a free slot after the timers, is sent the SYN-ACK, and has 300 ticks |
| TcpClients.HandshakeExact | src/user/tcp.h:680-693 | a half-open slot opens exactly on the acknowledgement of its number, and a repeated SYN has the SYN-ACK sent again |
| TcpClients.HalfOpenExpires | src/user/tcp.h:605-609 | in any run in which nothing comes from the client of a half-open slot, it is sent nothing and keeps the slot until exactly the first poll at its deadline |
| TcpClients.ReadyExactly | src/user/tcp.h:721-751 | a poll reports a slot exactly when the segment brought its client's next data |
| TcpClients.AnyAnswerEnds | src/user/tcp.h:736-750 | any segment from the client ends a connection that waits for its FIN to be acknowledged |
| TcpServer.OthersSwept | src/user/tcp.h:603-648 | a poll that brings nothing for a connection only runs its timers |
| TcpServer.RunReachable | src/user/tcp.h:527-563 | from tcp_mux_listen on every call keeps endpoints distinct and timers on schedule |
| TcpServer.ServerInvariant | src/user/tcp.h:527-563 | in every reachable state two slots in use never share a remote endpoint, and no timer exceeds 2000 ms or five repetitions |
| Tcp.AllWaits | src/user/tcp.h:610-618 | the six waits of the back-off take 810 ticks together |
| Tcp.WaitingCalls | src/user/tcp.h:764-793 | while a slot waits for an acknowledgement, sending only queues and closing only takes note: nothing is sent, and flight and timer stay |
| TcpServer.SilentClient | src/user/tcp.h:603-637 | in any run of polls, sends and closes in which nothing arrives from the client of a waiting slot, the client is sent its flight again at each passed deadline but the last and nothing else, and the slot is its own until exactly the sixth |
| TcpServer.SilentInEveryRun | src/user/tcp.h:603-637 | so it is from every state that any calls and arrivals reach from tcp_mux_listen on |
| TcpServer.SilenceTakes | src/user/tcp.h:605-637 | the deadlines follow the back-off: the slot is given up no sooner than 810 ticks after the flight was first sent |
| TcpMux.TcpSlot.StartClosing | src/user/tcp.h:557-563 | sends FIN without advancing the sequence number, and starts the timer |
| TcpMux.TcpSlot.Pump | src/user/tcp.h:574-595 | sends the next chunk or the deferred FIN, as specified |
| TcpMux.TcpSlot.Sweep | src/user/tcp.h:605-637 | the three timer checks of a slot, as specified |
| TcpMux.TcpSlot.Accept | src/user/tcp.h:657-675 | opens the slot for a new client |
| Tcp.PumpExact | src/user/tcp.h:574-595 | with nothing in flight the whole queue goes out at once, in one segment that is due again after 30 ticks |
| TcpMux.TcpSlot.Acknowledge | src/user/tcp.h:703-717 | drops the acknowledged bytes and moves the rest to the front of the buffer in place |
| TcpMux.TcpSlot.TakeData | src/user/tcp.h:721-734 | takes in-order data into the request buffer and acknowledges it |
| TcpMux.TcpSlot.Receive | src/user/tcp.h:680-750 | one segment for a slot in use, by its state; reports exactly the slots whose request grew |
| TcpMux.TcpSlot.Send | src/user/tcp.h:764-775 | queues the data or refuses it, exactly when it does not fit or the slot is not open |
| Tcp.SendExact | src/user/tcp.h:764-775 | all of the data or none: exactly what an open slot has room for in its 256 bytes |
| Tcp.SendGuardExact | src/user/tcp.h:767 | the 32-bit length check accepts exactly what fits, exactly when the sum does not wrap around |
| TcpMux.TcpSlot.Close | src/user/tcp.h:783-793 | sends FIN at once, or defers it while data is queued |
| TcpMux.Mux.Listen | src/user/tcp.h:522-525 | frees every slot |
| TcpMux.Mux.Find | src/user/tcp.h:527-536 | the slot of the endpoint |
| TcpMux.Mux.FindFree | src/user/tcp.h:538-541 | the first free slot |
| TcpMux.Mux.Poll | src/user/tcp.h:603-751 | timers of all slots, then at most one segment, on the slots in memory |
| TcpMux.Mux.Send | src/user/tcp.h:764-775 | as specified for the one slot; no other slot changes |
| TcpMux.Mux.Close | src/user/tcp.h:783-793 | as specified for the one slot; no other slot changes |
| TcpReceive.Connection.Recv | src/user/tcp.h:342-386 | polls until data, end or timeout; what it hands over and acknowledges is what the receiver of the system model takes from the same segments |
| TcpWire.FrameHeaders | src/user/tcp.h:125-170 | every byte in front of the data but the checksums: hardware addresses of the remote and the own end, both IP addresses and ports, numbers, flags, lengths, TTL 64 and window 8192 |
| TcpWire.ChecksumsVerify | src/user/tcp.h:125-170 | the checks that the other end makes on the frame alone: the IP header sums to zero, and so do the TCP bytes behind the addresses in the frame, the protocol number and the length |
| TcpWire.Read32Bytes | src/user/tcp.h:101-108 | addresses and numbers are read with the highest byte first |
| TcpWire.ParseInvertsFrame | src/user/tcp.h:89-121 | tcp_parse_segment reads back exactly the segment that tcp_send_segment was given, for up to 512 bytes of data |
| TcpWire.ParseSkipsOptions | src/user/tcp.h:89-121 | for IP and TCP headers of any length the data read is what the IP length announces, without padding, or as much of it as came |
| TcpWire.RunOnWire | src/user/tcp.h:125-170 | in any run of a server every segment sent fits one frame, which the other end reads back as that segment |
| TcpWire.SegmentChecksum | src/user/tcp.h:71-83 | tcp_checksum over pseudo-header and segment |
| TcpWire.FillFrame | src/user/tcp.h:125-170 | fills the send buffer with that frame in place |
| Checksum.DeferredCarries | src/user/icmp.h:25-35 | the loop's deferred-carry sum is the one's complement sum of RFC 1071, sections 1 and 2 |
| Checksum.StoredChecksumVerifies | src/user/icmp.h:25-35 | a message with its checksum stored over a zeroed field at an even offset has checksum zero, odd lengths included |
| Checksum.IpChecksum | src/user/icmp.h:25-35 | the accumulator and folding loops compute that checksum |
| Bignum.Number.Trim | src/kernel/gfx_shell.c:1375-1384 | removes leading zeros without changing the value; zero is never negative |
| Bignum.Align | src/kernel/gfx_shell.c:1390-1415 | both numbers at the larger scale and the same length, with their values |
| Bignum.CmpAbs | src/kernel/gfx_shell.c:1418-1422 | compares magnitudes |
| Bignum.AddAbs | src/kernel/gfx_shell.c:1425-1437 | the carry loop adds exactly |
| Bignum.SubAbs | src/kernel/gfx_shell.c:1440-1452 | the borrow loop subtracts exactly |
| Bignum.Add | src/kernel/gfx_shell.c:1455-1472 | the exact signed sum, for operands of any length and scale |
| Bignum.Sub | src/kernel/gfx_shell.c:1474-1479 | the exact signed difference |
| Bignum.AddProductRow | src/kernel/gfx_shell.c:1488-1502 | one row of the schoolbook product adds exactly its partial product |
| Bignum.Mul | src/kernel/gfx_shell.c:1481-1516 | the signed product truncated toward zero to at most 20 fractional digits |
| Division.StrippedFits | src/kernel/gfx_shell.c:1518-1525 | a stripped remainder below the divisor is no longer than it, so the buffer never overflows |
| Division.QuotientDigit | src/kernel/gfx_shell.c:1565-1586 | the subtraction loop stops with a digit of at most 9 and a remainder below the divisor |
| Division.LongDivide | src/kernel/gfx_shell.c:1537-1588 | the digits of dividend times 10^20 over divisor; the branch that would shift a full remainder is never taken |
| Division.Div | src/kernel/gfx_shell.c:1537-1600 | the signed quotient truncated toward zero to 20 fractional digits, and the division by zero reported exactly for a zero divisor |
| SquareRoot.StepAbove | src/kernel/gfx_shell.c:1648-1661 | a truncated Newton step never falls below the floor of the root |
| SquareRoot.StepHalves | src/kernel/gfx_shell.c:1648-1661 | and at least halves the distance |
| SquareRoot.StepQuadratic | src/kernel/gfx_shell.c:1648-1661 | near the root the distance shrinks quadratically |
| SquareRoot.NewtonBounds | src/kernel/gfx_shell.c:1648-1661 | after k steps the excess is at most 1 or the start's excess over 2^k |
| SquareRoot.SixtyStepsBound | src/kernel/gfx_shell.c:1637-1665 | after the sixty steps the result is between the truncated root and that plus the remaining share of the start |
| SquareRoot.SixtyStepsExact | src/kernel/gfx_shell.c:1637-1665 | for operands below 10^29 the result is the truncated root, or one unit more only when the radicand is one short of a square |
| SquareRoot.ShortOfSquare | src/kernel/gfx_shell.c:1648-1661 | one short of a square the iterates alternate between the root and one unit more for ever: sixty steps end at the root exactly when an odd number of them follow an iterate one above it |
| SquareRoot.BothEndsOccur | src/kernel/gfx_shell.c:1637-1665 | both ends occur: the root of 0.99999999999999999998 comes out one unit too large, that of 8.99999999999999999994 exact |
| SquareRoot.NewtonOnce | src/kernel/gfx_shell.c:1648-1661 | one iteration on decimals is one step on integers; no divisor is zero |
| SquareRoot.Sqrt | src/kernel/gfx_shell.c:1637-1665 | calc_sqrt is sixty such steps from a + 1; refuses exactly negative operands |
| SquareRoot.SqrtIsExact | src/kernel/gfx_shell.c:1637-1665 | what a caller gets for operands below 10^29 |
| Scheduling.RingKept | src/kernel/tasking.c:393-478 | schedule() keeps the cyclic order of the tasks and removes exactly the current one, only when it is exiting |
| Waking.StepFields | src/kernel/tasking.c:393-425 | one call, field by field: a task wakes exactly when its tick has come, stops waiting exactly when its pipe is ready, and the tick is counted for the task that had the CPU |
| Waking.PicksExact | src/kernel/tasking.c:425-468 | the current task goes on exactly while it is neither leaving nor blocked and has more than one tick left; else the first runnable task behind it is picked, with a whole slice |
| Waking.PicksRunnable | src/kernel/tasking.c:461-466 | a task that cannot run at this tick is picked only when no task can |
| Waking.WaitsUntil | src/kernel/tasking.c:403-410 | over runs of schedule(), whatever else happens: a waiting task is picked only by calls that find no task runnable, and is ready with the first call at which it is runnable |
| Waking.SleeperWakes | src/kernel/tasking.c:403-466 | a task that asks at tick t to sleep ms is picked by no call before tick t + ms/10 unless every task is blocked; the first call from that tick on makes it ready, and it has the CPU then or within the delay of a ready task in its place |
| Waking.ReaderWakes | src/kernel/tasking.c:403-466 | the same for a reader of an empty pipe, until the first call at which the pipe is ready |
| Waking.SliceExact | src/kernel/tasking.c:425-468 | a ready task keeps the CPU for exactly what is left of its slice, and the call after that picks another task if one can run |
| Scheduling.DelayDrops | src/kernel/tasking.c:393-478 | every call brings a task that is not blocked, killed or not, at least one tick closer to the CPU |
| Scheduling.RunsInTime | src/kernel/tasking.c:393-478 | a task that is not blocked, killed or not, has the CPU within the rest of the slice and the priorities before it |
| Scheduling.Fairness | src/kernel/tasking.c:393-478 | a task that loses the CPU and stays ready has it again within the sum of the other tasks' priorities, hence within 10(n-1) calls, whatever else blocks, wakes or exits |
| Processes.TickSound | src/kernel/tasking.c:393-478 | schedule() keeps slots owned by one task, ids distinct and a kernel task in the ring |
| Processes.TickFrees | src/kernel/tasking.c:440-449 | an exit frees exactly the slot of the task that leaves, and every other task keeps its slot |
| Processes.OpSound | src/kernel/kernel.c:1023-1107 | so does every exec, fork, kill, sleep, wait, exit and priority change |
| Processes.SlotsNeverShared | src/kernel/kernel.c:1202-1232 | in every run no two tasks share a program slot, and no task runs in a slot that exec or fork would hand out |
| Processes.LostExactly | src/kernel/kernel.c:1088-1107 | in every run a slot ends up taken with no task in it exactly if do_exec took it at some point and had no memory for the task; nothing gives it back |
| Processes.ExecExact | src/kernel/kernel.c:1023-1108 | the result of do_exec, error by error; a program that loads gets the lowest free slot and a task of priority 3 behind the current one, and every error leaves all as it was |
| Processes.ForkExact | src/kernel/kernel.c:1178-1232 | exactly when the program is not being killed and a slot and memory are left, the child has the lowest free slot, the priority of its parent and a whole slice |
| Processes.PriorityExact | src/kernel/tasking.c:484-494 | setting a priority changes that of the one task with the id, to within 1 and 10 |
| Processes.KillExact | src/kernel/tasking.c:612-639 | killing marks exactly the task in the slot, or with the id if it has a slot |
| Tasking.Scheduler.constructor | src/kernel/tasking.c:114-137 | one task in a ring of its own |
| Tasking.Scheduler.Schedule | src/kernel/tasking.c:393-478 | the pointer manipulation on the ring does exactly the specified tick |
| Tasking.Scheduler.WakeScan | src/kernel/tasking.c:403-410 | wakes every sleeper and reader that is due |
| Tasking.Scheduler.Unlink | src/kernel/tasking.c:442-445 | the predecessor search bypasses exactly the dying task |
| Tasking.Scheduler.Choose | src/kernel/tasking.c:461-466 | the loop finds the first task that is not blocked, in at most one round |
| Tasking.Scheduler.OnTaskExit | src/kernel/kernel.c:185-188 | frees the slot |
| Tasking.Scheduler.InsertTask | src/kernel/tasking.c:331-332 | puts a new task behind the current one in the ring |
| Tasking.Scheduler.CreateTask | src/kernel/tasking.c:139-243 | puts a new kernel task, without a slot, behind the current one |
| Tasking.Scheduler.DoExec | src/kernel/kernel.c:1003-1108 | takes the first free slot, and gives each of the error codes -1, -2 and -3 in the order of the checks |
| Tasking.Scheduler.DoFork | src/kernel/kernel.c:1178-1232 | takes a slot only together with a child |
| Tasking.Scheduler.SetTaskPriority | src/kernel/tasking.c:484-494 | clamps the priority to 1..10; the running slice stays |
| Tasking.Scheduler.KillBySlot | src/kernel/tasking.c:612-623 | marks the task in the slot |
| Tasking.Scheduler.KillByPid | src/kernel/tasking.c:627-639 | marks the task only if it has a slot; the result says whether there is one |
| Tasking.Scheduler.SleepCurrent | src/kernel/tasking.c:651-655 | the task sleeps until its tick |
| Tasking.Scheduler.WaitPipeCurrent | src/kernel/tasking.c:660-663 | the task waits for the pipe |
| ElfFormat.CodeEndFits | src/kernel/elf.c:88-132 | the end of the image found in the first pass is within the window |
| ElfFormat.DeltaFits | src/kernel/elf.c:141-159 | the shifted image fits the window for every random number, so the bounds check of the second pass never fires |
| ElfFormat.DeltaAligns | src/kernel/elf.c:141-159 | the shifted boundary is page-aligned exactly when it was to begin with, or there are relocations and more room than the distance to the next page |
| ElfFormat.UnshiftedMisaligned | src/kernel/elf.c:141-159 | a program without relocations for which it is not |
| ElfAccepts.DeltaExact | src/kernel/elf.c:141-159 | a program with relocations and room for the alignment can come to lie at exactly the aligned offsets that leave 20 KB and a page behind the image, and at the least aligned one |
| ElfLoad.GuardExact | src/kernel/elf.c:202-206 | the guard on a relocation admits exactly words inside the image, and offsets whose sum with 4 wraps around |
| ElfLoad.CopySegment | src/kernel/elf.c:186-189 | copies the segment and clears its tail, and writes nothing else |
| ElfLoad.CopySegments | src/kernel/elf.c:166-193 | the second pass, including the segment that the file does not hold; its bounds check is unreachable |
| ElfLoad.ApplyRelocations | src/kernel/elf.c:199-208 | the relocation loop patches the specified words in order |
| ElfLoad.ElfLoad | src/kernel/elf.c:53-232 | result, error and final slot contents for every file without wrapping relocation offsets |
| ElfAccepts.LoadedExact | src/kernel/elf.c:53-232 | the loader accepts exactly the files with a right header whose loadable segments, at least one, lie in the file and in the window, and whose shifted entry point is in the shifted image |
| ElfAccepts.OutsideUntouched | src/kernel/elf.c:53-232 | whatever the file and the result, no byte of the slot outside the place of the shifted image is written, and a file that the checks reject changes nothing |
| MakeElf.Layout | tools/make_elf.py:163-204 | where build_elf puts headers, tables and image |
| MakeElf.ScanReads | tools/make_elf.py:163-204 | the loader's first pass recovers relocations, boundary and size from a built file |
| MakeElf.PatchedAll | src/kernel/elf.c:199-208 | relocations that do not overlap each move their own word once and touch no other byte |
| MakeElf.LoadInvertsBuild | tools/make_elf.py:163-204 | every non-empty image that fits loads, for any relocations and random number: the slot holds it at delta with each relocated word increased by delta, is unchanged elsewhere, and the entry moves along |
| PageWalk.PicksZoned | src/kernel/paging.c:121-131 | heap and pool never overlap each other or the fixed mappings, for every random choice |
| PageWalk.PicksCover | src/kernel/paging.c:121-131 | every place of its zone can come up, and no other |
| PageWalk.GlobalWalk | src/kernel/paging.c:133-224 | the four-level walk over the kernel's tables gives the identity map described without tables, at every page |
| PageWalk.KernelRights | src/kernel/paging.c:133-224 | page by page: identity where anything is mapped, nothing at the guard page, the kernel's code not writable, user access in the window only, no execution in the 2 MB pages |
| PageWalk.TaskWalk | src/kernel/paging.c:280-377 | the walk over a task's tables gives its slot in the window and the kernel's view everywhere else |
| PageWalk.UserReachesSlot | src/kernel/paging.c:280-377 | under a task's tables in memory the walk lets user code reach exactly the 16 window pages, one to one onto the slot; every other address walks as under the kernel's tables |
| PageWalk.ReachIsSlot | src/kernel/paging.c:280-377 | a physical page is in reach of a task's user code exactly when it is one of the 16 pages of its slot |
| PageWalk.TasksApart | src/kernel/paging.c:294-335 | with the tables of two tasks in one memory, no physical page is in reach of both |
| PageWalk.TablesOutOfReach | src/kernel/paging.c:280-377 | no page table, of the kernel or of any task, is in reach of a task's user code |
| PageWalk.WriteXorExecute | src/kernel/paging.c:299-335 | with NX and a boundary, the walk under a task's tables finds the last window page, and no other user page, both writable and executable |
| PageWalk.WindowRights | src/kernel/paging.c:299-335 | page by page: without a boundary everything is writable and executable; else code is not writable and data not executable, but for the last page |
| PageWalk.BoundaryExact | src/kernel/paging.c:306-331 | code stays executable and data writable, byte for byte, exactly when the boundary is page-aligned or in the last page |
| Paging.PageTables.InitPaging | src/kernel/paging.c:133-224 | the loops build the kernel's tables, with heap and pool at the random places |
| Paging.PageTables.FillTaskPt | src/kernel/paging.c:293-335 | the task's page table: the kernel's without user access, and the window |
| Paging.PageTables.CreateUserDirectory | src/kernel/paging.c:280-377 | builds the task's four tables, with the boundary the 32-bit sum gives, and leaves the kernel's and every other task's tables as they were |
| Paging.PageTables.Isolated | src/kernel/paging.c:280-377 | after any directories made in any order, each task has exactly its own slot in reach, no page of another task and no page of any tables |
| ProgramPages.ProgramSplits | src/kernel/paging.c:299-335 | under its tables a program has all code executable and all data writable exactly when the shifted boundary does not wrap around 2^32 and the loader could align it or it is in the last page; when it wraps, the first byte of the program cannot be executed |
| ProgramPages.WrappingFile | src/kernel/paging.c:300 | a file whose boundary wraps around to 0 |
| VirtioQueue.StepPartitioned | src/drivers/virtio_net.c:174-190 | every step of driver or device keeps each of the eight buffers in exactly one place |
| VirtioQueue.RunPartitioned | src/drivers/virtio_net.c:296-320 | so does every run from the initial state |
| VirtioQueue.HandedInOrder | src/drivers/virtio_net.c:296-320 | in every run, each call with its own max_len: a call that finds a buffer hands over the oldest completed one not yet handed over, as its whole frame exactly if it fits this call, for good |
| VirtioQueue.HandedOnce | src/drivers/virtio_net.c:296-320 | as many buffers are handed over as calls found one |
| VirtioNet.SlotsDiffer | src/drivers/virtio_net.c:186-187 | positions less than a round apart use different ring slots, also where the 16-bit counter wraps |
| VirtioNet.RingPush | src/drivers/virtio_net.c:186-190 | adding an entry overwrites none that is still waiting |
| VirtioNet.RxQueue.constructor | src/drivers/virtio_net.c:230-240 | all eight buffers are offered |
| VirtioNet.RxQueue.Repost | src/drivers/virtio_net.c:174-190 | sets the descriptor to the whole buffer, device-writable, and writes the next place of the avail ring |
| VirtioNet.RxQueue.Receive | src/drivers/virtio_net.c:296-320 | copies out the oldest completed frame that fits, offers its buffer again, and touches no other byte of the caller's buffer |
| VirtioNet.RxQueue.DeviceFetch | src/drivers/virtio_net.c:186-190 | the device takes the oldest offered buffer |
| VirtioNet.RxQueue.DeviceComplete | src/drivers/virtio_net.c:296-304 | the device writes where the descriptor points, and gives the buffer back through the used ring |

## Left out

- Interrupts, port I/O, IDE transfers, printing, control registers and the GUI: hardware and plumbing. `fat12_flush` does nothing to the RAM copy.
- Fat12Files.Load: reading a directory as a file is not told apart from a file, as in the code; `fat12_list`, `fat12_readdir` and `fat12_cat` only print or enumerate.
- Fat12.Volume.constructor: the driver checks no more of the disk than the sector size, and the other operations are described for sound volumes only; the model does not say what they do on a damaged one.
- MakeFat12.Build: reading the `fs` directory is not modelled; file names are given as bytes that lookups can find, as all ASCII names are.
- Heap.KernelHeap.Malloc: requests above 0xFFFFFFE0 are excluded; `HeapBlocks.ReservedCovers` shows that exactly these wrap around.
- Heap.KernelHeap.Free: pointers whose header cannot be read, and foreign memory that happens to hold the magic of a live block, are excluded.
- HeapMemory.DecodeEncoded: the two padding bytes of a header are never written, and hold anything.
- Tag generation, and the printed messages before the machine halts.
- TcpMux.TcpSlot.Send: lengths for which the 32-bit sum of the length check wraps around are excluded on an open slot; `Tcp.SendGuardExact` shows that exactly these pass it wrongly.
- TcpProgress.RunDrains: needs the receiver to have no more than the sender has seen acknowledged. The receiver does not acknowledge a duplicate again, so a lost acknowledgement can stall a connection until it is given up.
- TcpSystem.NothingLost: needs streams of at most 2^31 bytes; beyond that `TcpSystem.StaleAck` gives the acknowledgement numbers that are misread.
- The blocking one-connection calls `tcp_connect`, `tcp_accept`, `tcp_send` and `tcp_close`, hardware addresses in slots, ARP, and segments with a bad checksum, which the parser accepts.
- Ticks that wrap around after 497 days.
- SquareRoot.Sqrt: operands with more than 20 fractional digits are excluded; the calculator makes them only by typing or by repeated percent.
- Running out of memory in the calculator, its display, and the state machine of its keys.
- Scheduling.Fairness: no task is added and no priority set in between; a killed task that stays blocked is never reaped, as in the code. `Waking.WaitsUntil` has no such restriction.
- Tasking.Scheduler.ExitCurrent: only tasks with a slot exit, as all callers in the kernel ensure by checking isolation or being reached from user programs.
- Tasking.Scheduler.OnTaskExit: the exit code, heap break, open files and output redirection of the slot are not modelled; only the slot itself is.
- Saved registers, stacks, page directories, names, security levels and the system call mask of tasks; pipe and file-descriptor bookkeeping at exit.
- ElfLoad.ElfLoad: relocation offsets in the last four bytes of the 32-bit range are excluded; `ElfLoad.GuardExact` shows what the guard does with them.
- The PE parsing in `make_elf.py` (`find_wx_boundary`, `parse_pe_relocations`): the tables it finds are arguments.
- PageWalk.Walk: entries are records of frame and flags, not 64-bit words; addresses beyond 48 bits, TLBs, SMEP, SMAP and page faults are not modelled.
- VirtioNet.RxQueue.Receive: the rings are arrays of 16-bit numbers and of pairs, and descriptors are records that name a buffer, not bytes and addresses; the transmit queue, PCI discovery and notifications are not modelled; the device is one that follows the protocol.
- Terminals (`screen.c`), the RISC-V emulators, DNS, DHCP, ARP, games and editors: easier members, or decoding of fixed fields.

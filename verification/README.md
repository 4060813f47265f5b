# Verified model of the CRuby component's runtime support

This project models, in Dafny, the support code that lets CRuby run inside a CAmkES
component on seL4, and proves what that code promises.

* **Allocator** (`ruby_alloc.c`). `RubyAlloc.dfy` is the allocator on raw memory: a
  byte array, headers threaded through it, 64-bit arithmetic with wrap-around written
  out. `Memory.dfy` says which abstract heap a memory represents. `Allocator.dfy` is
  that heap as a machine on values (carved blocks with their bytes, free list), and
  `Bits.dfy`, `Bytes.dfy` and `Bump.dfy` are the arithmetic below it. `Runs.dfy` proves
  properties of whole runs, first of all that the allocator refines a map from live
  pointers to their bytes; `Outcomes.dfy` says what every call returns and leaves, on
  blocks, list and offset; `Unmapping.dfy` says which addresses free and munmap drop, and
  `Driver.dfy` connects runs on raw memory to runs of the abstract machine.
* **Fake descriptors** (`ruby_syscall_poll.c`). `EventFd.dfy` and `Epoll.dfy` specify one
  descriptor of each kind, `Descriptors.dfy` updates the tables in place, and
  `TableRuns.dfy` is about sequences of calls on them.
* **Serial input and poll** (`ruby_syscall_poll.c`). `SerialLink.dfy` is the ring shared
  with SerialServer as a state machine with one event per shared access; its theorems
  are about every interleaving. `Serial.dfy` is the client code, with any number of
  environment steps before each shared access, and `ConsoleRuns.dfy` is about sequences
  of its calls.
* **Random source, archive files, console size** in `Random.dfy`, `Archive.dfy` and
  `Tty.dfy`.

Where comments in the source and its code differ, the model follows the code. The
header comment of `ruby_alloc.c` (lines 19-23) says that `munmap` releases nothing, and
lines 407-412 that every trim is dropped. The code frees the whole block when a trim
starts at the block's first byte, and it stores into the payload when the client's own
bytes below the address look like a header in use; `Unmapping.TrimExact` gives the exact
condition. Line 666 of `ruby_syscall_poll.c` means to leave no timer running;
`Serial.Console.PollFds` and `ConsoleRuns.LeaveTimerRunning` say exactly when one is.
Line 126 of `ruby_syscall_fs.c` calls "." a path of the root, which it is not
(`Archive.DotIsNotRoot`).

## Assumptions

* The arena starts at a non-zero 4096-byte boundary and ends below 2^64; a header takes
  32 bytes; the static arena starts out as zeros. A machine word in memory is stored
  with its low byte first.
* Clients store only inside payloads of live blocks, pass only live pointers to
  `realloc`, and make no request of 2^64 - 32 bytes or more that the wrap-around test
  misjudges (`Bump.TestExact`). In runs, addresses given to `free` and `munmap` are NULL,
  starts of blocks, or addresses inside blocks that free ignores (`Unmapping.LegalExactly`).
* SerialServer stores at tail, never into a full ring, and signals when head differs from
  the head it saw at its previous signal (always the first time); its store, comparison
  and signal are one step. SerialServer is not part of this model; `SerialLink.SplitPushLosesWakeup`
  shows that the last point is needed.
* The timer is a one-shot that may refuse to be armed. The descriptor allocator returns
  an unused descriptor or EMFILE. An archive lookup finds the first entry of the exact name,
  and the archive format records sizes in 32 bits.
* In `Serial.dfy` the environment is a finite script, and a call that waits when the script
  has ended is reported as blocked; every finite run is a prefix of some script.
* Bytes moved by eventfd reads and writes are represented by the 64-bit value they encode.

## Model

| member | source | states |
|---|---|---|
| `Bits.IsPowerOfTwoExact` | apps/ruby/components/Ruby/src/ruby_alloc.c:69-72 | the bit test accepts a 64-bit value if and only if it is 2^k for some k below 64 |
| `Bits.AlignUpExact` | apps/ruby/components/Ruby/src/ruby_alloc.c:74-77 | for a power of two, rounding up by masking is the least multiple not below the argument when the addition does not wrap, and 0 when it does |
| `Bits.RoundUpLeast` | apps/ruby/components/Ruby/src/ruby_alloc.c:143-146 | rounding up is the smallest multiple of the alignment that is at least the argument |
| `Bits.MaskRoundsDown` | apps/ruby/components/Ruby/src/ruby_alloc.c:74-77 | clearing low bits with a mask of 2^n - 2^k rounds down to a multiple of 2^k, for every width n |
| `Bump.TestExact` | apps/ruby/components/Ruby/src/ruby_alloc.c:145-152 | the wrap-around test is right (accepts exactly what fits below the arena end) if and only if the size is below 2^64 - 32 or the address after the block, wrapped once, is past the arena end; an accepted fitting request gets the right addresses, also when the alignment itself wraps |
| `Bump.HugeRequestAccepted` | apps/ruby/components/Ruby/src/ruby_alloc.c:147-152 | a request of 2^64 - 32 bytes on an empty arena is accepted although it does not fit |
| `Allocator.FirstFit` | apps/ruby/components/Ruby/src/ruby_alloc.c:94-117 | the first list position whose block has the capacity and the alignment, or the end if there is none |
| `Allocator.Disjointness` | apps/ruby/components/Ruby/src/ruby_alloc.c:119-162 | headers and payloads of all carved blocks are pairwise disjoint and lie between the arena base and the offset, which never passes 64 MiB |
| `Allocator.FailsExactly` | apps/ruby/components/Ruby/src/ruby_alloc.c:119-162 | allocation is refused exactly when no listed block fits and every aligned address with room for a header is too high |
| `Allocator.AllocatedBlock` | apps/ruby/components/Ruby/src/ruby_alloc.c:94-162 | a successful allocation returns an aligned block that was free or did not exist, with the requested size within its capacity, no longer on the list; every other block keeps its place, bytes and status |
| `Allocator.ArenaAllocValid` | apps/ruby/components/Ruby/src/ruby_alloc.c:94-162 | allocation keeps the invariant: list entries distinct and in range, sizes within capacities, layout ordered, offset exact |
| `Memory.FreeListExact` | apps/ruby/components/Ruby/src/ruby_alloc.c:57-67 | every carved header keeps magic, capacity and size within it; the free list is acyclic, ends in NULL and holds exactly the blocks whose flag is set, each once |
| `Memory.CarveRepresents` | apps/ruby/components/Ruby/src/ruby_alloc.c:154-161 | writing the five header fields of a fresh block turns memory into a representation of the heap with that block, whose payload is zero |
| `Memory.UnlinkStoresRepresents` | apps/ruby/components/Ruby/src/ruby_alloc.c:100-109 | the stores that unlink a block (at the front or behind a predecessor) represent the heap with the block off the list and all others untouched |
| `Memory.PushStoresRepresents` | apps/ruby/components/Ruby/src/ruby_alloc.c:182-184 | the stores of free represent the heap with the block at the front of the list |
| `RubyAlloc.Arena.ReuseFreeBlock` | apps/ruby/components/Ruby/src/ruby_alloc.c:94-117 | the pointer walk terminates, returns the first fitting block and unlinks exactly it; without a fit nothing changes |
| `RubyAlloc.Arena.ArenaAlloc` | apps/ruby/components/Ruby/src/ruby_alloc.c:119-162 | on raw memory, for every request that the wrap-around test judges correctly: takes exactly the step of the abstract machine, with EINVAL or ENOMEM on refusal |
| `RubyAlloc.Arena.Malloc` | apps/ruby/components/Ruby/src/ruby_alloc.c:164-167 | malloc takes the abstract step |
| `RubyAlloc.Arena.Free` | apps/ruby/components/Ruby/src/ruby_alloc.c:169-185 | for NULL and every address in the arena: memory and list head become exactly what the two words below the address decide; at the start of a block, and wherever nothing is stored, this is the step of the abstract machine |
| `RubyAlloc.Arena.Calloc` | apps/ruby/components/Ruby/src/ruby_alloc.c:187-203 | calloc refuses exactly the overflowing products and otherwise zeroes the whole product |
| `RubyAlloc.Arena.Realloc` | apps/ruby/components/Ruby/src/ruby_alloc.c:205-232 | realloc of a live block: free at size zero, in place within the capacity, otherwise allocate, copy, free; on failure the old block stays |
| `RubyAlloc.Arena.PosixMemalign` | apps/ruby/components/Ruby/src/ruby_alloc.c:234-249 | EINVAL for a null target or a bad alignment, ENOMEM when the arena refuses, otherwise the abstract step; errno changes only to ENOMEM when the arena refuses |
| `RubyAlloc.Arena.AlignedAlloc` | apps/ruby/components/Ruby/src/ruby_alloc.c:251-259 | EINVAL for an alignment that is not a power of two, otherwise the abstract step |
| `RubyAlloc.Arena.MallocUsableSize` | apps/ruby/components/Ruby/src/ruby_alloc.c:261-268 | the capacity of the block, 0 for NULL |
| `RubyAlloc.Arena.Mmap` | apps/ruby/components/Ruby/src/ruby_alloc.c:322-393 | for every length: the abstract mapping step, with the errno of each refusal; memory at the result is the least number of whole pages, which show the bytes of the file from the offset on, as far as length and the file reach, and zeros elsewhere |
| `RubyAlloc.MappingShows` | apps/ruby/components/Ruby/src/ruby_alloc.c:355-393 | the bytes of a mapping in any memory that represents the heap with it |
| `RubyAlloc.Arena.Munmap` | apps/ruby/components/Ruby/src/ruby_alloc.c:414-422 | does to memory what free does, whatever the length: a whole block goes onto the list, an address that free ignores changes nothing |
| `RubyAlloc.DivisionGuard` | apps/ruby/components/Ruby/src/ruby_alloc.c:192-195 | the division guard fires exactly when count times size reaches 2^64 |
| `RubyAlloc.PageRounding` | apps/ruby/components/Ruby/src/ruby_alloc.c:335-339 | the rounding check rejects exactly the lengths whose rounding wraps; otherwise the result is the least whole number of pages |
| `Runs.StepRefines` | apps/ruby/components/Ruby/src/ruby_alloc.c:164-422 | every legal call, seen through live pointers and their bytes, is a step of the abstract heap: new objects are aligned, unused and disjoint, contents known where promised, all other objects unchanged |
| `Runs.LiveObjectsApart` | apps/ruby/components/Ruby/src/ruby_alloc.c:94-232 | live objects are pairwise disjoint and inside the arena |
| `Runs.RunRefines` | apps/ruby/components/Ruby/src/ruby_alloc.c:94-422 | over every legal run the allocator refines the abstract heap, result for result |
| `Outcomes.AllocationExact` | apps/ruby/components/Ruby/src/ruby_alloc.c:94-393 | malloc, calloc, posix_memalign, aligned_alloc, mmap and allocating realloc: refused exactly for bad arguments or if no listed block holds the request and every aligned address with room for a header is too high; otherwise the address is that of the first listed block that holds it, or the lowest fresh one, and list, offset and all other blocks follow from that |
| `Outcomes.ReallocInPlace` | apps/ruby/components/Ruby/src/ruby_alloc.c:219-222 | within the capacity realloc returns the pointer and records the size; address, capacity, bytes, all other blocks, list and offset stay |
| `Outcomes.ReallocMoves` | apps/ruby/components/Ruby/src/ruby_alloc.c:224-231 | beyond the capacity realloc is refused exactly if the arena has no room; otherwise the object gets the address a malloc would get and the old block, unchanged, goes to the front of the list |
| `Outcomes.ReleaseExact` | apps/ruby/components/Ruby/src/ruby_alloc.c:169-185 | free, munmap of any length and realloc to size zero put a block in use at the front of the list; a listed block and NULL change nothing |
| `Runs.MmapRefines` | apps/ruby/components/Ruby/src/ruby_alloc.c:322-393 | a mapping is page aligned, spans the least whole number of pages and holds the file image followed by zeros, for every length and history |
| `Runs.MoveRefines` | apps/ruby/components/Ruby/src/ruby_alloc.c:224-231 | a growing realloc keeps exactly the old bytes in the new object, or leaves everything as it was when it fails |
| `Runs.CallocRefines` | apps/ruby/components/Ruby/src/ruby_alloc.c:187-203 | a calloc object begins with count times size zeros even on a recycled block |
| `Unmapping.TrimExact` | apps/ruby/components/Ruby/src/ruby_alloc.c:400-422 | inside a live mapping free and munmap store nothing if and only if the address is not the first byte and the two words below it, which fewer than 8 bytes in reach into the mapping's own header, are not a magic number above a zero flag; at the first byte the whole mapping goes onto the list |
| `Unmapping.LegalExactly` | apps/ruby/components/Ruby/src/ruby_alloc.c:177-184 | an interior address is one a run may pass to munmap, which is then a step that changes nothing, exactly when free stores nothing there |
| `Unmapping.ForgedTrimStores` | apps/ruby/components/Ruby/src/ruby_alloc.c:407-422 | not every trim is dropped: after a client has stored a zero flag and the magic number below an interior address, munmap of it changes the payload and makes the list head an address that is the header of no block |
| `Unmapping.ZeroPageTrimDropped` | apps/ruby/components/Ruby/src/ruby_alloc.c:169-185 | at an interior page boundary of a block that holds zeros munmap is legal and changes nothing |
| `Unmapping.DoubleFree` | apps/ruby/components/Ruby/src/ruby_alloc.c:177-184 | after a free, as long as no call returns the block again, freeing it another time changes nothing, whatever legal calls lie in between |
| `Runs.Conservation` | apps/ruby/components/Ruby/src/ruby_alloc.c:119-185 | live capacity, free capacity, 32 bytes per block and padding add up to the offset, and each padding is smaller than its block's alignment |
| `Runs.NoLeak` | apps/ruby/components/Ruby/src/ruby_alloc.c:94-185 | in a run of uniform requests the blocks ever carved equal the peak number of live objects, and the offset is at most peak times (32 + size + alignment - 1) |
| `Driver.Perform` | apps/ruby/components/Ruby/src/ruby_alloc.c:164-422 | each call on raw memory returns and leaves what the abstract machine says |
| `Driver.Run` | apps/ruby/components/Ruby/src/ruby_alloc.c:94-422 | a whole run on raw memory is a run of the abstract machine and of the abstract heap |
| `EventFd.EventConservation` | apps/ruby/components/Ruby/src/stub/ruby_syscall_poll.c:283-313 | initial value plus every value in a written buffer of at least 8 bytes equals everything delivered plus the counter modulo 2^64, over any mix of read, readv, write and fcntl |
| `TableRuns.Run` | apps/ruby/components/Ruby/src/stub/ruby_syscall_poll.c:118-550 | over any sequence of calls on the tables that does not close a descriptor, its entry ends as the calls that name it leave it, and its initial value plus what was written equals what was handed out plus its counter modulo 2^64 |
| `TableRuns.Perform` | apps/ruby/components/Ruby/src/stub/ruby_syscall_poll.c:118-550 | one call leaves the entry of every eventfd it does not name as it was |
| `EventFd.ReadvTakes` | apps/ruby/components/Ruby/src/stub/ruby_syscall_poll.c:436-455 | a scatter read takes from the counter exactly the sum it delivers |
| `EventFd.ReadvExact` | apps/ruby/components/Ruby/src/stub/ruby_syscall_poll.c:436-455 | a scatter read, complete for every list of buffers: how many values, which, the counter left, result and errno |
| `EventFd.SemaphoreReadv` | apps/ruby/components/Ruby/src/stub/ruby_syscall_poll.c:300-302 | in semaphore mode readv over m whole buffers delivers exactly min(counter, m) tokens, with EAGAIN only when there is none |
| `EventFd.PlainReadv` | apps/ruby/components/Ruby/src/stub/ruby_syscall_poll.c:303-309 | otherwise the first usable buffer receives the whole counter |
| `Descriptors.Table.Create` | apps/ruby/components/Ruby/src/stub/ruby_syscall_poll.c:118-134 | the lowest free entry is taken and its descriptor was not live; EMFILE exactly when all four are in use |
| `Descriptors.Table.ReadFd` | apps/ruby/components/Ruby/src/stub/ruby_syscall_poll.c:283-313 | read on a live eventfd delivers the whole counter, or 1 in semaphore mode, and takes it off; EINVAL and EAGAIN change nothing; any other descriptor is passed on |
| `Descriptors.Table.ReadvFd` | apps/ruby/components/Ruby/src/stub/ruby_syscall_poll.c:438-455 | the readv loop delivers what the specification of scatter reads says |
| `Descriptors.Table.WriteFd` | apps/ruby/components/Ruby/src/stub/ruby_syscall_poll.c:460-478 | write of at least 8 bytes on a live eventfd is never refused, returns 8 and adds to the counter modulo 2^64; EINVAL otherwise |
| `Descriptors.Table.Close` | apps/ruby/components/Ruby/src/stub/ruby_syscall_poll.c:480-501 | close clears the entry and leaves every watch of other epoll descriptors in place |
| `Descriptors.Table.Fcntl` | apps/ruby/components/Ruby/src/stub/ruby_syscall_poll.c:503-550 | flag queries and updates act on the eventfd if there is one, else on the epoll descriptor, with the listed errors |
| `EventFd.FcntlExact` | apps/ruby/components/Ruby/src/stub/ruby_syscall_poll.c:503-550 | F_GETFL returns what F_SETFL set, F_GETFD the bit F_SETFD set, F_SETFD changes no other flag bit, the other commands change nothing; EMFILE for duplication, EINVAL for unknown commands |
| `Epoll.ControlRefines` | apps/ruby/components/Ruby/src/stub/ruby_syscall_poll.c:174-234 | epoll_ctl on eight slots refines a finite map of at most eight descriptors, with EEXIST, ENOENT and ENOSPC exactly as the map says |
| `Epoll.ControlExact` | apps/ruby/components/Ruby/src/stub/ruby_syscall_poll.c:174-234 | which calls are accepted, what each does to the map, and the errno of each refusal |
| `Epoll.MapExact` | apps/ruby/components/Ruby/src/stub/ruby_syscall_poll.c:174-234 | a descriptor is in the map exactly if a used slot names it, with that slot's event |
| `Epoll.FullExactly` | apps/ruby/components/Ruby/src/stub/ruby_syscall_poll.c:195-204 | the map has eight entries exactly when no slot is free |
| `Descriptors.Table.EpollCreate` | apps/ruby/components/Ruby/src/stub/ruby_syscall_poll.c:146-162 | the lowest free entry becomes an epoll descriptor that watches nothing |
| `Descriptors.Table.EpollCtl` | apps/ruby/components/Ruby/src/stub/ruby_syscall_poll.c:174-234 | epoll_ctl changes the watched map as specified and nothing else |
| `Descriptors.Table.EpollWait` | apps/ruby/components/Ruby/src/stub/ruby_syscall_poll.c:236-269 | epoll_wait reports the first min(maxevents, ready) ready watches in slot order and changes no table |
| `Descriptors.ReadySlots` | apps/ruby/components/Ruby/src/stub/ruby_syscall_poll.c:250-264 | the listed slots are ready and in increasing order |
| `Descriptors.ReadySlotsComplete` | apps/ruby/components/Ruby/src/stub/ruby_syscall_poll.c:250-264 | every ready slot is listed |
| `Descriptors.ReadySlotsExact` | apps/ruby/components/Ruby/src/stub/ruby_syscall_poll.c:250-264 | the listed slots are exactly those in use that watch for input on a live eventfd whose counter is not zero; no deleted watch and none for other events is listed |
| `Descriptors.ReadinessAgrees` | apps/ruby/components/Ruby/src/stub/ruby_syscall_poll.c:257-262 | for a live eventfd epoll_wait, poll and an 8-byte read agree on readiness |
| `SerialLink.ApplyKeeps` | apps/ruby/components/Ruby/src/stub/ruby_syscall_poll.c:315-390 | every step of producer or client keeps the ring invariant, with distances that do not wrap |
| `SerialLink.ReachableInv` | apps/ruby/components/Ruby/src/stub/ruby_syscall_poll.c:315-390 | the invariant holds in every state a run reaches |
| `SerialLink.ComparisonExact` | apps/ruby/components/Ruby/src/stub/ruby_syscall_poll.c:338-342 | the producer's comparison modulo 4088 tells exactly whether the client has consumed since the last signal |
| `SerialLink.Fifo` | apps/ruby/components/Ruby/src/stub/ruby_syscall_poll.c:324-390 | under every interleaving the bytes stored are the bytes consumed followed by those in the ring |
| `SerialLink.NoLostWakeup` | apps/ruby/components/Ruby/src/stub/ruby_syscall_poll.c:335-363 | a client that found the ring empty has a notification pending as soon as the ring is not empty; with nothing pending the next byte signals |
| `SerialLink.SplitPushLosesWakeup` | apps/ruby/components/Ruby/src/stub/ruby_syscall_poll.c:338-342 | if the producer's store and signal could be separated, a run exists that leaves the client waiting on a ring with input |
| `Serial.Console.Wait` | apps/ruby/components/Ruby/src/stub/ruby_syscall_poll.c:357 | a wait may be entered only in a state in which input already present has its notification pending; it blocks for ever only on an empty ring with nothing pending; keys and ticks may gather until it wakes |
| `Serial.Console.Getchar` | apps/ruby/components/Ruby/src/stub/ruby_syscall_poll.c:351-363 | the blocking read consumes exactly one byte, the next in order, and enters no wait when input has been seen |
| `Serial.Console.SerialReadv` | apps/ruby/components/Ruby/src/stub/ruby_syscall_poll.c:392-420 | returns between 1 and capacity bytes, the next in order; stops short only on an empty ring; it enters no wait when poll has reported input; EFAULT and 0 as coded |
| `Serial.ReportedInputIsThere` | apps/ruby/components/Ruby/src/stub/ruby_syscall_poll.c:645-661 | revents of a stdin entry are the requested subset that was ready; a reported POLLIN means input that stays until it is taken |
| `Serial.ScannedAnswers` | apps/ruby/components/Ruby/src/stub/ruby_syscall_poll.c:638-662 | what a scan leaves in every entry, told on the tables and the ring alone |
| `Serial.Console.Scan` | apps/ruby/components/Ruby/src/stub/ruby_syscall_poll.c:638-662 | one scan: count and revents of every entry, stdin found readable stays readable, stdin found empty was empty when the scan began; without environment steps it finds nothing where nothing is |
| `Serial.Console.ArmAndWait` | apps/ruby/components/Ruby/src/stub/ruby_syscall_poll.c:672-689 | the timer is armed at most once, refusal ends the call, and a badge counts as expiry only while armed |
| `Serial.Console.PollFds` | apps/ruby/components/Ruby/src/stub/ruby_syscall_poll.c:616-691 | every revents: nothing on negative descriptors, output exactly if asked for, input if asked for always on a descriptor that is no eventfd, on an eventfd exactly if its counter is not zero, on stdin exactly as the ring says; the result counts the entries that report; a wait is entered only for stdin and only if nothing can be reported; zero only for the listed reasons; the timer is matched by exactly one stop or expiry, an expiry is followed by a scan; a timer is left running only if one ran before, or if the call armed it on an empty ring and took a notification pending from before for its expiry; on such a stale notification it does return 0 at once and leaves the timer running |
| `ConsoleRuns.LeaveTimerRunning` | apps/ruby/components/Ruby/src/stub/ruby_syscall_poll.c:664-689 | the condition is exact: from every state with a timer running, or with an empty ring and a timer notification pending, some call in a quiet environment leaves a timer running |
| `ConsoleRuns.StaleNotification` | apps/ruby/components/Ruby/src/stub/ruby_syscall_poll.c:664-689 | such a state arises: a key ends a timed poll, the timer expires before the second scan, the key is read, and the next timed poll leaves its timer running |
| `ConsoleRuns.PollThenReadv` | apps/ruby/components/Ruby/src/stub/ruby_syscall_poll.c:392-420 | a readv after a poll that reported input delivers without entering a wait |
| `ConsoleRuns.Run` | apps/ruby/components/Ruby/src/stub/ruby_syscall_poll.c:351-420 | over any sequence of reads and polls in any environment the outputs in order are the bytes sent, from the first unread one on, followed by what is left in the ring |
| `ConsoleRuns.RunFromStart` | apps/ruby/components/Ruby/src/stub/ruby_syscall_poll.c:351-420 | from the start, the concatenated outputs are a prefix of what was sent |
| `Random.ScrambleBijective` | apps/ruby/components/Ruby/src/stub/ruby_syscall_random.c:25-31 | the xorshift step is a bijection on 64-bit words with an explicit inverse |
| `Random.ScrambleOnNumbers` | apps/ruby/components/Ruby/src/stub/ruby_syscall_random.c:25-31 | on 64-bit numbers the step is the three shifts by 13, 7 and 17 with their exclusive ors |
| `Random.SeedOnNumbers` | apps/ruby/components/Ruby/src/stub/ruby_syscall_random.c:21-23 | the seed is 0x6a09e667f3bcc909 |
| `Random.NeverZero` | apps/ruby/components/Ruby/src/stub/ruby_syscall_random.c:21-31 | from a non-zero state zero is never reached |
| `Random.SeedNeverZero` | apps/ruby/components/Ruby/src/stub/ruby_syscall_random.c:21-31 | the seed is not zero, and zero is never reached from it |
| `Random.Returns` | apps/ruby/components/Ruby/src/stub/ruby_syscall_random.c:25-31 | from every state the generator returns to it within 2^64 steps |
| `Random.StreamSplits` | apps/ruby/components/Ruby/src/stub/ruby_syscall_random.c:47-60 | a draw of a bytes followed by a draw of b equals one draw of a + b when 8 divides a, in bytes and in state |
| `Random.StreamWord` | apps/ruby/components/Ruby/src/stub/ruby_syscall_random.c:47-60 | each eight bytes of the stream, low byte first, are the next word of the generator |
| `Random.Generator.NextRandom64` | apps/ruby/components/Ruby/src/stub/ruby_syscall_random.c:25-31 | the in-place step computes the specified bijection |
| `Random.Generator.GetRandom` | apps/ruby/components/Ruby/src/stub/ruby_syscall_random.c:33-63 | the buffer receives the first n bytes of the little-endian word stream, its rest is untouched, and ceil(n/8) words are consumed; EFAULT only for a null buffer with a non-zero length |
| `Random.Generator.GetEntropy` | apps/ruby/components/Ruby/src/stub/ruby_syscall_random.c:65-74 | EIO above 256 bytes without drawing anything, otherwise the stream |
| `Archive.NormalizeTwice` | apps/ruby/components/Ruby/src/ruby_syscall_fs.c:58-70 | a second normalisation changes a path exactly when the first left a leading slash |
| `Archive.NormalizeExact` | apps/ruby/components/Ruby/src/ruby_syscall_fs.c:58-70 | the normal form is exactly what is left behind some slashes and then some dot-slash pairs when no more can be taken away, so ./x names x |
| `Archive.StatExact` | apps/ruby/components/Ruby/src/ruby_syscall_fs.c:257-276 | in an archive of relative names directories are exactly the root and the paths whose components are the first but not all of those of an entry; files are exactly the entries |
| `Archive.UnderExactly` | apps/ruby/components/Ruby/src/ruby_syscall_fs.c:115-143 | comparing a prefix followed by a slash is comparing leading components |
| `Archive.RootExactly` | apps/ruby/components/Ruby/src/ruby_syscall_fs.c:58-70 | the paths that normalise to the root are exactly some slashes followed by some dot-slash pairs |
| `Archive.DotIsNotRoot` | apps/ruby/components/Ruby/src/ruby_syscall_fs.c:124-128 | the root is a directory under / but a single dot never is one |
| `Archive.WalkToEntry` | apps/ruby/components/Ruby/src/ruby_syscall_fs.c:101-143 | walking to an entry component by component finds a directory at every step and the file with its size at the end |
| `Archive.OpenAgreesWithStat` | apps/ruby/components/Ruby/src/ruby_syscall_fs.c:235-276 | if one normalisation leaves no leading slash, open finds a file exactly when stat reports a regular one, with its size |
| `Archive.OpenAgreesExactly` | apps/ruby/components/Ruby/src/ruby_syscall_fs.c:235-276 | open and stat agree on a path in every archive of relative names if and only if the path leaves no leading slash or its doubly normalised form cannot be the name of an entry |
| `Archive.DoubleSlashDisagrees` | apps/ruby/components/Ruby/src/ruby_syscall_fs.c:247 | the file a opens as .//a although stat does not find it |
| `Archive.FileSystem.NormalizePath` | apps/ruby/components/Ruby/src/ruby_syscall_fs.c:58-70 | the cursor stops at the normal form |
| `Archive.FileSystem.FindFile` | apps/ruby/components/Ruby/src/ruby_syscall_fs.c:72-81 | the first entry named by the normalised path |
| `Archive.FileSystem.IsArchiveDirectory` | apps/ruby/components/Ruby/src/ruby_syscall_fs.c:115-143 | true exactly for the root and for names some entry lies under |
| `Archive.FileSystem.StatFile` | apps/ruby/components/Ruby/src/ruby_syscall_fs.c:257-276 | regular, directory or ENOENT as specified; EFAULT for a null target |
| `Archive.FileSystem.OpenCpio` | apps/ruby/components/Ruby/src/ruby_syscall_fs.c:161-200 | each refusal in order with its error, otherwise a new descriptor for that file and no other change |
| `Archive.FileSystem.Open` | apps/ruby/components/Ruby/src/ruby_syscall_fs.c:235-248 | open succeeds exactly when the doubly normalised path is an entry and resources last, with the errno of each refusal |
| `Archive.FileSystem.FstatFile` | apps/ruby/components/Ruby/src/ruby_syscall_fs.c:291-324 | character device for 0 to 2, the recorded size for open files, EBADF otherwise |
| `Archive.FileSystem.OpenThenFstat` | apps/ruby/components/Ruby/src/ruby_syscall_fs.c:195-199 | fstat after open repeats stat |
| `Tty.ParseExact` | apps/ruby/components/Ruby/src/stub/ruby_syscall_tty.c:69-106 | the parser yields two digit strings exactly on texts whose first ESC [ begins digits ; digits R with them |
| `Tty.RoundTrip` | apps/ruby/components/Ruby/src/stub/ruby_syscall_tty.c:69-106 | printing two 32-bit values as a report after junk without ESC [ and parsing gives them back |
| `Tty.Console.ParseCursorReport` | apps/ruby/components/Ruby/src/stub/ruby_syscall_tty.c:72-106 | the character loop computes the specified parse, numbers modulo 2^32 |
| `Tty.MeasuresExactly` | apps/ruby/components/Ruby/src/stub/ruby_syscall_tty.c:126-166 | a report within 31 bytes, after junk without R, is stored with both values exactly when each is between 1 and 65535 |
| `Tty.MeasuresDigits` | apps/ruby/components/Ruby/src/stub/ruby_syscall_tty.c:126-166 | a report of any two digit strings within 31 bytes, after junk without R, counts exactly if neither number is zero modulo 2^32, and is stored modulo 2^16 |
| `Tty.CollectedExact` | apps/ruby/components/Ruby/src/stub/ruby_syscall_tty.c:137-155 | the query loop ends with the first R, at 31 bytes, or when the terminal falls silent |
| `Tty.Console.MeasureConsole` | apps/ruby/components/Ruby/src/stub/ruby_syscall_tty.c:126-166 | the size becomes the answer modulo 2^16 when both numbers are positive and is kept otherwise; it is then known |
| `Tty.Console.Ioctl` | apps/ruby/components/Ruby/src/stub/ruby_syscall_tty.c:213-254 | each request on each descriptor with its status and errno; only the first size query on stdin measures, which stores the answer or keeps 24 by 80 |

## Left out

- RubyAlloc.Arena.ArenaAlloc: requires a request that the wrap-around test judges correctly, because the code corrupts its own offset when it accepts one that does not fit; `Bump.TestExact` shows that this excludes nothing else. The same holds for the calls built on it.
- RubyAlloc.Arena.Free: does not model pointers outside the arena. At an address below which a client has stored the words of a header in use, the stores are stated but not the calls that follow.
- RubyAlloc.Arena.Realloc: requires NULL or a live pointer, as the C standard does.
- RubyAlloc.Arena.Mmap: the resolution of a descriptor to archive contents is a parameter; protection, address hint and flags other than anonymous are ignored by the code.
- Serial.Console.PollFds: no minimum delay is claimed, because a notification left over from an earlier timer ends a wait early.
- Descriptors.Table.ReadvFd: readv on stdin is `Serial.Console.SerialReadv`; the dispatch between them, with its EINVAL for a null vector or a negative count, is not modelled.
- Archive.FileSystem.OpenCpio: the read, lseek and close handlers of the C library port that serve the descriptor are not modelled.
- `mremap`, the libc and internal alias wrappers, and `epoll_create`, `epoll_pwait`, `eventfd_read` and `eventfd_write`: one-line forwards or constant answers.
- fcntl on descriptors that are not fake: a table of constants.
- Conversion of poll and ppoll timeouts to nanoseconds, and the constructors that install system calls.
- termios storage, `isatty`, `ruby_pthread.c`, `ruby_syscall_proc.c`, `ruby_syscall_clock.c`, `ruby_libc_init.c`, `ruby.c` and the scripts: only easy claims.

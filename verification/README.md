# FireballOS, modelled and proved in Dafny

FireballOS is a teaching kernel for 32-bit x86 with a few user programs. This project models its state-handling
components and proves what they are for, over every input, every image or every run:

| file | what it models |
|---|---|
| `Bytes.dfy` | bytes, 32-bit words, C strings, storing bytes into a sequence, joining texts, quotients and set sizes |
| `FileSystem.dfy` | the read-only file system: `read_data` over scattered 4096-byte blocks, lookup of directory entries |
| `FileTable.dfy` | a process's eight file descriptors and `open`, `read`, `write`, `close` on them |
| `Listing.dfy` | ls: its directory loop and the lines it prints, with the memory behind its buffer |
| `Grep.dfy` | grep's search of a file through a 1024-byte window, on top of `FileTable` |
| `Paging.dfy` | seven page directories and their shared tables, and the processor's walk over them |
| `Loader.dfy` | loading a program image: `FileSystem` read through the mapping of `Paging` into physical memory |
| `Execute.dfy` | the whole `execute` call over the file system, the page tables, memory and the process table |
| `Processes.dfy` | the slot bitmap and the process control blocks under `execute`, `halt` and `context_switch` |
| `Scheduler.dfy` | the ring of seven slots under `scheduling`, and what `execute` and `halt` do to it |
| `Console.dfy` | the terminal buffers, the cursor globals, scrolling, and switching between three terminals |
| `Output.dfy` | the `write` call of a process as it reaches its terminal: `FileTable` over `Console` |
| `Blink.dfy` | the list of blinking characters over a static pool of 2000 nodes |
| `Memory.dfy` | `memset`, `memcpy` and `memmove` |
| `Numerals.dfy` | `itoa`, in-place `strrev` and the `%#x` conversion |
| `Arguments.dfy` | splitting a command into arguments in place, and joining arguments |
| `Clock.dfy` | the elapsed time shown in the status bar |

Every component has the same layout. An abstract value (a map, a history, a list, a table) and the laws about it come
first, as functions and lemmas over all inputs and all runs. The class or the methods that update arrays and fields in
place, as the source does, come after them; a ghost field holds the abstract value, `Valid()` ties it to the real state,
and each method's `ensures` gives the new abstract value as the abstract step of the old one. Laws such as
`FileSystem.ShortNameIsFound`, `Paging.TranslationInNumbers`, `Console.HistoryIsText`, `Blink.SyncByLocation` and
`Arguments.ArgumentsGrow` say what an abstract step computes in terms of the bytes, addresses and numbers alone.

Where the code does not do what its comments or documentation say, the model follows the code, and a lemma says exactly
when the promise is kept:

- `read_data` delivers the requested slice unless `offset + length` wraps around 32 bits (`FileSystem.ReadIsSlice`).
- Looking a name up agrees with reading by index exactly when entries with the same first 31 characters are the same
  entry (`FileSystem.ByNameIsByIndex`); a listing stops at an entry with an empty name (`Listing.ListsEverything`).
- grep compares the first character of its pattern as a signed character, prints nothing for the empty pattern and cuts
  lines after 1024 bytes (`Grep.FaithfulForFile`, `Grep.FaithfulForPattern`).
- `user_vidmap` changes the directory of the program loaded last, not the one in use (`Paging.VidmapServesCurrent`).
- A line of ls is the name alone unless names of 31 or 32 bytes reach the memory behind its buffer
  (`Listing.CleanLines`).
- A failed `execute` never gives its slot back (`Processes.SlotsAreConserved`). `execute` queues a process twice and
  `halt` removes it once, from slot 3 when `next_available` is 0: the old queue never comes back, and the ring is lost
  once more than five entries are queued or the two end at the last slot (`Scheduler.ExecuteThenHaltLeavesEntry`,
  `Scheduler.ThreeShellsFillTheRing`); the scheduler switches to the ended process when nothing before it is eligible
  (`Scheduler.EndedProcessIsScheduled`).
- A line of 80 columns or more overwrites its own row of the terminal (`Console.RowsShowShortLines`), and the screen may
  keep a character its newline was stored on (`Console.WriteDisplaysExactly`, `Console.LateNewlineStays`).
- Output to a terminal in the background lands at the active terminal's cursor and moves it
  (`Console.BackgroundWrite`).
- `ece391_getargs` stores a NUL just past its buffer when arguments fill it exactly (`Arguments.Getargs`).
- A node added at location 0 stands in the blink list while its slot counts as free (`Blink.AddKeepsWellFormed`), and
  lengths of 0 or above 32768 last one tick (`Blink.LengthsAreFollowed`).
- `memcpy` onto a destination inside its source goes wrong (`Memory.CopyIsExactUnlessItClobbers`).
- Joining and splitting again gives other arguments back as soon as one is empty or holds a space or a newline
  (`Arguments.JoinThenSplit`).

`dafny verify dfyconfig.toml` checks the whole project.

## Model

| member | source | states |
|---|---|---|
| FileSystem.ReadIsSlice | student-distrib/filesys.c:139-202 | On a well-formed image a read returns the size of, and stores, exactly the bytes of the file's flat content from the offset up to the length asked for or the end of the file, if and only if the offset is past the end or `offset + length` is below 2^32 |
| FileSystem.ReadStaysInTable | student-distrib/filesys.c:161-201 | With a length the block table can hold, a request that does not wrap never indexes `data_block_nums` past entry 1022, whatever block numbers the table holds |
| FileSystem.WrappedRequestOverruns | student-distrib/filesys.c:152-153 | A request whose end wraps is not clamped to the file, and no inode's block table is long enough for it |
| FileSystem.SegmentIsSlice | student-distrib/filesys.c:139-202 | The bytes found block by block through the inode's table are the slice of the concatenation of its blocks |
| FileSystem.ContentAt | student-distrib/filesys.c:155-201 | Byte p of a file's content is byte p mod 4096 of the data block that entry p / 4096 of its block table names, and the content is as long as the inode says |
| FileSystem.WhatIsRead | student-distrib/filesys.c:139-202 | On any image, damaged or not: byte i stored is the byte of the block the table names for position offset + i; the count is the length asked for, cut at the end of the file as the 32-bit test does it; a short count ends at the first block number that is none (-1) or at entry 1023 of the table |
| FileSystem.ReadData | student-distrib/filesys.c:139-202 | The copying loop returns the outcome and stores, at the caller's place in the buffer, exactly the bytes up to the first invalid block or the end of the request; the rest of the buffer is unchanged |
| FileSystem.CopyBlocks | student-distrib/filesys.c:155-201 | The loop over blocks ends and distinguishes a full copy, an invalid block number and a step off the block table |
| FileSystem.ReadDentryByName | student-distrib/filesys.c:44-90 | Returns the first entry whose name, as a C string, equals the argument, or has 31 bytes or more and agrees with it in the first 31, with its copied name; nothing exactly when there is none |
| FileSystem.ShortNameIsFound | student-distrib/filesys.c:44-90 | A lookup of a name of at most 30 bytes finds exactly the first entry whose C string is that name, with all its fields, and fails exactly when there is none |
| FileSystem.KeysAgree | student-distrib/filesys.c:55-75 | Two names count as the same if and only if their C strings are equal, or both have 31 bytes or more and agree in the first 31 |
| FileSystem.CopiedEntryIs | student-distrib/filesys.c:103-125 | Reading an entry by index copies its name out as a string and all else as it is, so no lookup can tell the copy from the stored entry; it is the stored entry byte for byte if and only if only NULs follow the name in it |
| FileSystem.SameName | student-distrib/filesys.c:55-75 | The clipped lengths and the byte comparison decide whether two C strings are equal, or have 31 bytes or more each and agree in the first 31 |
| FileSystem.ByNameIsByIndex | student-distrib/filesys.c:44-125 | For every directory: looking up each listed name gives what reading that index gives, if and only if entries whose C strings are equal, or agree in their first 31 bytes and are no shorter, agree altogether |
| FileTable.StepIsLocal | student-distrib/systemcalls.c:347-467 | A call touches no descriptor but its own and a refused call touches none; `open` succeeds exactly when the name resolves and a descriptor is free, and takes the lowest free one, in 2..7; `close` succeeds exactly on an open descriptor other than 0 and 1, which stay open |
| FileTable.OpensByType | student-distrib/systemcalls.c:368-390 | With a descriptor free, an entry of type 0 opens as a clock, of type 1 as the directory from its first entry, of type 2 with a valid inode number as the file from its first byte; every other entry is refused |
| FileTable.RepliesByKind | student-distrib/systemcalls.c:401-417 | What a `read` of each kind of descriptor returns and does to it: a file the bytes at its position, a directory its next name padded with NULs, a clock nothing, a terminal for output a refusal; a descriptor that is not open or a negative count is refused |
| FileTable.ReadsAreContiguous | student-distrib/filesys.c:237-267 | In every interleaving of calls that does not close it, a file descriptor keeps its file, its position only grows, and its reads concatenate to the content between its two positions |
| FileTable.ReadToTheEnd | student-distrib/filesys.c:237-267 | Reads from the start deliver a prefix of the file, and all of it once a read of positive size delivers nothing |
| FileTable.RegularReads | student-distrib/filesys.c:237-267 | On a well-formed image a read at a file slot delivers the slice at its position, moves past it and keeps the slot valid |
| FileTable.FileTable.constructor | student-distrib/systemcalls.c:157-170 | A new process has standard input and output open and nothing else |
| FileTable.FileTable.Open | student-distrib/systemcalls.c:347-393 | Refines the abstract `open`: lowest free descriptor, handle by file type, -1 and no change on failure |
| FileTable.FileTable.FileOpen | student-distrib/filesys.c:213-226 | Opening a regular file starts at position 0 of its content, and fails without a change on a bad inode number |
| FileTable.FileTable.FileRead | student-distrib/filesys.c:237-267 | Stores what `read_data` delivers and adds its result to the 32-bit position, also when that result is -1 |
| FileTable.FileTable.DirRead | student-distrib/filesys.c:331-348 | Stores at most 32 bytes of the next name, returns the length of the C string then in the buffer, and moves to the next entry; at the end returns 0 |
| FileTable.FileTable.Read | student-distrib/systemcalls.c:401-417 | Refines the abstract `read`: the bytes stored, the result and the new position are those of the descriptor's handle, -1 for anything not readable |
| FileTable.FileTable.Write | student-distrib/systemcalls.c:425-441 | Only a descriptor that stands for the screen the process was started on accepts a write: it prints the C string there and reports the count asked for; a process has no descriptor for any other screen |
| Output.Write | student-distrib/terminal.c:152-170 | Through the jump table: standard output prints the C string and returns the count, anything else returns -1 and prints nothing; the terminal the process was started on, and no other, holds what was there before followed by all the process has written; on the active terminal that always leaves the terminals intact, on one in the background if and only if the output leaves both undisturbed |
| FileTable.FileTable.Close | student-distrib/systemcalls.c:449-467 | Refines the abstract `close`: removes one descriptor of 2..7 that is open, refuses any other |
| Listing.ListsEverything | student-distrib/filesys.c:331-348 | The loop that stops at the first 0 lists every entry once and in order, if and only if no entry has an empty name |
| Listing.ListedAre | syscalls/ece391ls.c:18-25 | The names listed are those of the entries, in order, up to the first entry whose name is empty |
| Listing.CountIsLength | student-distrib/filesys.c:331-348 | After a read of 32 bytes the buffer starts with the name, and the reported length is its length if and only if it is shorter than 32 bytes or the byte after the request is a NUL |
| Listing.CleanLine | syscalls/ece391ls.c:18-25 | For any memory behind the buffer, the line ls prints starts with the name, and is the name and a newline if and only if the name has at most 30 bytes, or the one or two bytes after the request that it reaches are NULs |
| Listing.CleanLines | syscalls/ece391ls.c:8-30 | Over the whole directory: one line for each name reached, clean if and only if the name has at most 30 bytes, or no earlier name fills 32 bytes and byte 32 (for a 32-byte name, byte 33 as well) started as a NUL |
| Listing.ListDirectory | syscalls/ece391ls.c:8-30 | The loop over the descriptor table, with its store of the newline and its writes, prints exactly those lines, ends, and leaves the directory position behind the last entry read |
| Listing.Ls | syscalls/ece391ls.c:8-30 | The program lists the directory from its first entry and returns 0 if and only if there is an entry named "." and a free descriptor; otherwise it prints its message, returns 2 and leaves the descriptors as they were |
| Grep.FaithfulForFile | syscalls/ece391grep.c:10-66 | For every NUL-free file: every pattern with an ASCII first character reports exactly the lines that contain it, once and in order, if and only if every line has at most 1024 bytes or no byte below 128 |
| Grep.FaithfulForPattern | syscalls/ece391grep.c:10-66 | For every pattern: all files with lines of at most 1024 bytes are reported faithfully, if and only if the pattern starts with an ASCII character or can occur in no such line |
| Grep.CutIsHarmless | syscalls/ece391grep.c:20-60 | Searching the pieces the window hands over selects the same lines as searching the whole lines |
| Grep.LinesAreText | syscalls/ece391grep.c:28-38 | The lines of a file, with newlines between them, are the file but for a newline at its very end, and no line holds one |
| Grep.LineInPieces | syscalls/ece391grep.c:20-60 | A line of any length reaches the search as consecutive pieces of 1024 bytes and one of what is left |
| Grep.NewlineEndsPiece | syscalls/ece391grep.c:28-60 | A newline ends the piece before it; behind a multiple of 1024 bytes it gives an empty piece of its own |
| Grep.SelectGrows | syscalls/ece391grep.c:40-51 | A line is selected, in its place, if and only if it is some text, the pattern and some text again |
| Grep.ReportGrows | syscalls/ece391grep.c:44-49 | Each line selected is printed behind the file name and a colon, and ended by a newline |
| Grep.LongLineIsLost | syscalls/ece391grep.c:20-60 | Names, for a line that is cut, a one-character pattern for which the line is not reported |
| Grep.DoOneFile | syscalls/ece391grep.c:10-66 | From whatever the window holds on entry: if the file opens, one search prints exactly the report of its pieces, however they straddle the window, and returns 0; otherwise it prints its message and returns -1; the descriptor table is left as it was |
| Grep.SearchAll | syscalls/ece391grep.c:20-60 | The refill loop ends and prints the report of the whole content; no index leaves the 1025-byte array |
| Grep.ScanWindow | syscalls/ece391grep.c:28-60 | One window prints the report of its complete pieces and moves the rest to its front, with no newline left behind it |
| Grep.SearchLine | syscalls/ece391grep.c:40-51 | A line is printed once if the pattern occurs in it, and not at all otherwise |
| Grep.StrNCmp | syscalls/ece391support.c:35-46 | The comparison is 0 exactly when the pattern stands at that place of the line |
| Paging.TranslationIsMemoryMap | student-distrib/paging.c:33-273 | For each of the seven directories the processor's walk over the raw words gives, at every address, the kernel page and the VGA page supervisor-only at their own addresses, the program window at 8 MB + 4 MB per process, the user video page at 0xB8000, and nothing else |
| Paging.TranslationInNumbers | student-distrib/paging.h:13-27 | The same with every address as a number: process k's address 0x8000000 + o is physical 0x800000 + k * 0x400000 + o, 0x7CB8000 + o is 0xB8000 + o, and the kernel page and the VGA page are where they are |
| Paging.WindowsTileMemory | student-distrib/paging.c:219-232 | With all seven directories loaded, every physical address from 8 MB to 36 MB is reached from exactly one of them at exactly one offset of its window, in ascending order |
| Paging.MapAfterAnyRun | student-distrib/paging.c:219-273 | After any sequence of `task_mem_init` and `user_vidmap` the walk is that map, with the program window exactly where `task_mem_init` was called and the video page exactly where `cur_PD` pointed |
| Paging.ProgramsAreIsolated | student-distrib/paging.c:219-232 | Whatever a program reaches is its own frame or the VGA page; two programs share nothing else and none reaches the kernel page |
| Paging.VidmapServesCurrent | student-distrib/paging.c:240-273 | The address `user_vidmap` returns works in a directory if and only if `cur_PD` points at it or it had the page before |
| Paging.VidmapAfterChild | student-distrib/paging.c:240-273 | After a child process has ended, its parent's `user_vidmap` maps the page for the child's directory only |
| Paging.WordFields | student-distrib/paging.h:28-90 | The processor reads out of an entry's word the presence, permissions, size and frame that were set in its bit fields |
| Paging.RawWords | student-distrib/paging.c:75-178 | Every word of every directory and table: 0x400183 for the kernel page, the table address and 0x103 for the VGA page, 0x800087 + k * 0x400000 for the program of process k, the table address and 7 for its video page, 0xB8103 and 0xB8007 in the tables, and 0 everywhere else |
| Paging.PageTables.constructor | student-distrib/paging.c:33-178 | Initialisation on arbitrary storage gives every directory the initial map |
| Paging.PageTables.InitTask | student-distrib/paging.c:219-232 | Gives process `pid` its window and refuses any number above 6 without a change |
| Paging.PageTables.Vidmap | student-distrib/paging.c:240-273 | Refines the abstract step on the entries in memory and returns the fixed user address |
| Paging.PageTables.Map4MBPage | student-distrib/paging.c:275-289 | Changes one entry of the directory `cur_PD` points at and no other |
| Paging.PageTables.Access | student-distrib/paging.c:186-211 | Splitting an address and following the entries in memory gives the memory map's translation |
| Loader.ProgramLoad | student-distrib/filesys.c:392-415 | The load loop ends; the outcome depends only on whether a regular file of that name exists and fits; the process's frame then holds the file from offset 0x48000 on, up to the end of the window if it faults there, and nothing else changed |
| Loader.NextBlock | student-distrib/filesys.c:406-413 | The 4 MB window ends between two blocks of the image, so each block is stored whole or faults at its first byte |
| Loader.LoadProgram | student-distrib/systemcalls.c:117-131 | The directory of the process, then its image: the same, from any valid paging state |
| Loader.ImageIsVisible | student-distrib/filesys.c:392-415 | After a load the process sees byte i of the file at virtual address 0x8048000 + i, which is physical 0x800000 + k * 0x400000 + 0x48000 + i, as far as its window goes |
| Loader.OnlyImageIsStored | student-distrib/filesys.c:392-415 | A load changes no byte but those from 0x48000 in the process's 4 MB on, as many as the file has and at most up to the end of those 4 MB, and none at all if there is no such file |
| Loader.LoadLeavesOthersAlone | student-distrib/filesys.c:392-415 | No byte of another process's frame, the kernel page or the VGA page changes |
| Loader.Destination | student-distrib/filesys.c:400-412 | A block of the image goes to its place in the frame as long as it fits the 4 MB window, and faults beyond it |
| Processes.BlocksAreApart | student-distrib/systemcalls.c:133-134 | The 8 KB blocks of different processes are disjoint, lie in the kernel page and contain their own stack tops |
| Processes.RunKeepsWellFormed | student-distrib/systemcalls.c:37-320 | Over every run of successful and failed `execute`, `halt`, switches and shell requests the process table stays well formed, and a slot lost to a failed `execute` never comes to a process |
| Processes.StepKeepsWellFormed | student-distrib/systemcalls.c:37-320 | Every single call keeps the table well formed and gives back no lost slot |
| Processes.ChainsEndInShells | student-distrib/systemcalls.c:142-155 | Following parents passes through live processes only and ends at a shell after exactly the depth of the process: chains have no cycles |
| Processes.ChainsAreDisjoint | student-distrib/systemcalls.c:142-155 | Chains that meet are one chain: one of the two processes is an ancestor of the other |
| Processes.SlotsAreConserved | student-distrib/systemcalls.c:48-79 | Each call changes the number of slots taken by exactly its balance, and the search fails exactly when all seven are taken |
| Processes.ExecuteUses | student-distrib/systemcalls.c:48-155 | `execute` uses the lowest slot that is neither live nor lost: a program that loads runs there, without a parent if a shell was asked for and as the child of the process that ran otherwise; one that does not load takes the slot away for good |
| Processes.BlocksTell | student-distrib/systemcalls.c:133-155 | The block of a live process holds its number and its parent, its own number for a shell; the child flag is set if and only if it has a child, which the block then names |
| Processes.RequestedShellIsRoot | student-distrib/keyboard.c:220-285 | After the keyboard has asked for a shell, the next program that loads has no parent, and every other process keeps its own |
| Processes.ExecuteThenHalt | student-distrib/systemcalls.c:37-252 | Starting a program and halting it gives back the whole table; halting a shell changes nothing |
| Processes.MarkingMarks | student-distrib/systemcalls.c:55-57 | Setting a slot's bit marks that slot and changes no other |
| Processes.TogglingUnmarks | student-distrib/systemcalls.c:224-224 | Toggling the bit of a marked slot clears that slot and changes no other |
| Processes.ProcessTable.FindSlot | student-distrib/systemcalls.c:48-79 | The mask search finds the lowest slot that is neither live nor lost |
| Processes.ProcessTable.Execute | student-distrib/systemcalls.c:37-155 | Refines the abstract step on bitmap, blocks and globals: too many, refused with the bit kept, or running in the slot found |
| Execute.ExecuteProgram | student-distrib/systemcalls.c:37-188 | The whole call over file system, page tables, physical memory and process table: a free slot, the executable check, the mapping, the image and the process, or the exact state each failure leaves |
| Execute.RunsExactly | student-distrib/systemcalls.c:81-131 | A program runs if and only if a slot is free, the name is that of a regular file of at most 0x3B8000 bytes, and it starts with the bytes 7F 45 4C 46 (a shorter file with what the stack holds behind it); it starts at the little-endian address in bytes 24 to 27; too many processes, a page fault and a refusal are told apart |
| Execute.Check | student-distrib/systemcalls.c:81-114 | The executable check and the entry address, for every image and every content of the two stack buffers |
| Processes.ProcessTable.FillBlock | student-distrib/systemcalls.c:133-155 | A shell becomes its own parent; any other process becomes the only child of the one that was running |
| Processes.ProcessTable.Halt | student-distrib/systemcalls.c:198-252 | A shell hangs; any other process gives its slot back and its parent runs again without a child |
| Processes.ProcessTable.ContextSwitch | student-distrib/systemcalls.c:298-320 | Switching to any live process makes it current; the table stays well formed if and only if that process has no child; -1 changes nothing |
| Scheduler.SchedulingIsSafe | student-distrib/systemcalls.c:259-296 | A call keeps the multiset of queued processes and switches only to a queued process whose child flag is 0 and that is not current; it keeps the current one if and only if there is none |
| Scheduler.ScheduledIs | student-distrib/systemcalls.c:259-296 | The first queued process with child flag 0 that is not current becomes current and goes to the end of the queue, behind those that stood before it; without one nothing changes |
| Scheduler.SchedulingIsFair | student-distrib/systemcalls.c:259-296 | A queued childless process that is not current becomes current within its queue position plus one calls |
| Scheduler.HaltSlotIsLast | student-distrib/systemcalls.c:242-244 | The slot `halt` clears is the one filled last if and only if `next_available` is not 0 |
| Scheduler.HaltSlotIs | student-distrib/systemcalls.c:242-242 | In 32-bit unsigned arithmetic that slot is `next_available` - 1, but 3 when `next_available` is 0 |
| Scheduler.EndedProcessIsScheduled | student-distrib/systemcalls.c:166-175 | A process that has ended is still queued; for any queue the next call switches to it if and only if no process queued before it is eligible |
| Scheduler.ExecuteNeedsRoom | student-distrib/systemcalls.c:166-175 | For every ring: after `execute` a queue accounts for it if and only if at most five entries were queued, and that queue is the old one with the process twice behind it |
| Scheduler.ExecuteThenHaltLeavesEntry | student-distrib/systemcalls.c:166-244 | For every ring: after `execute` and `halt` of a process a queue accounts for it if and only if at most five entries were queued and `(next_available + 2) % 7` is not 0, and that queue is the old one with the ended process behind it, never the old one |
| Scheduler.ThreeShellsFillTheRing | student-distrib/keyboard.c:220-285 | Three shells, one for each terminal, leave a well-formed ring of six entries; whatever runs next to its end, no queue accounts for the ring, although `(next_available + 2) % 7` is not 0 |
| Scheduler.HaltAtZeroBreaks | student-distrib/systemcalls.c:242-244 | A `halt` while `next_available` is 0 leaves a ring that no queue accounts for |
| Scheduler.TaskRing.RunShellCommand | student-distrib/systemcalls.c:166-175 | From an empty ring: a shell starts, runs a program that ends, and the next call of the scheduler switches to the ended program |
| Scheduler.TaskRing.Scheduling | student-distrib/systemcalls.c:259-296 | The loop over the ring array ends and does to the queue what one abstract call does, keeping the ring's shape |
| Scheduler.TaskRing.CountTasks | student-distrib/systemcalls.c:269-273 | Counting the slots that are not -1 gives the length of the queue |
| Scheduler.TaskRing.Requeue | student-distrib/systemcalls.c:282-288 | Moves the head of the queue to its end and keeps the ring's shape |
| Scheduler.TaskRing.Dequeue | student-distrib/systemcalls.c:242-244 | Takes the process queued last off the ring and keeps it well formed if and only if `next_available` is not 0; otherwise clears slot 3, leaves that process in slot 6, and no queue accounts for the ring |
| Scheduler.TaskRing.ExecuteProcess | student-distrib/systemcalls.c:166-175 | The two entries of `execute` on the ring in memory: well formed afterwards if and only if at most five were queued |
| Scheduler.TaskRing.ExecuteThenHalt | student-distrib/systemcalls.c:166-244 | The calls on any well-formed ring in memory: well formed afterwards, with one entry more, if and only if at most five were queued and the two entries do not end at the last slot; otherwise no queue at all accounts for the ring |
| Console.ScreenIsLastLines | student-distrib/lib.c:797-822 | For every output, split at its newlines and carriage returns into lines of at most 79 characters: the grid shows exactly the last 24 of them, in order, left-aligned and blank-padded, with the cursor after the last one |
| Console.HistoryIsText | student-distrib/lib.c:800-822 | The lines of the history of any output, with newlines between them, are the output with carriage returns taken for newlines, and none holds either |
| Console.LinesAreUnique | student-distrib/lib.c:800-822 | Lines without newlines and carriage returns that join to the output are those of its history |
| Console.LastInIs | student-distrib/lib.c:818-820 | In each column a row shows the last character of its line whose position is that column modulo 80, and a blank if there is none |
| Console.DisplayIsLastLines | student-distrib/terminal.c:152-170 | A screen shows a history of lines below 80 characters if and only if its rows are the last 24 of them, left-aligned and blank-padded |
| Console.OutputShows | student-distrib/lib.c:797-822 | Whatever the line lengths, every output keeps the grid a window on the history: each row shows, in each column, the character its line wrote there last |
| Console.PutShows | student-distrib/lib.c:797-822 | One character keeps that window, through the newline, the scroll and the column wrap |
| Console.RowsShowShortLines | student-distrib/lib.c:818-820 | A row shows every line of n characters in full if and only if n is at most 79 once the line has ended, 80 before |
| Console.ScrollShows | student-distrib/buffer.c:53-69 | A newline in the last row drops the oldest line and starts an empty one |
| Console.TerminalsAreIndependent | student-distrib/terminal.c:214-229 | However output and switching interleave, each terminal's history is that of the output it was given itself |
| Console.Screens.constructor | student-distrib/terminal.c:239-272 | Three blank terminals, the first one active, each standing for an empty history |
| Console.Screens.ResetBuf | student-distrib/buffer.c:21-43 | Every cell becomes blank and learns its own column and row |
| Console.Screens.ScrollBuf | student-distrib/buffer.c:53-69 | The in-place loops move every row up by one and blank the last, leaving coordinates and the row below alone |
| Console.Screens.PutCout | student-distrib/lib.c:797-822 | The buffer and the cursor globals change as one abstract character does, and the two counters restart at a newline |
| Console.Screens.PrintHelper | student-distrib/lib.c:102-109 | Shows one character at its place of the screen and leaves the screen alone for a newline |
| Console.Screens.PrintB | student-distrib/buffer.c:101-108 | Rows 0 to 23 of the screen become the buffer's, except under a newline; the status row stays |
| Console.Screens.PutNext | student-distrib/lib.c:797-822 | One character on the active terminal extends its history and changes no other terminal's buffer |
| Console.WriteDisplaysExactly | student-distrib/terminal.c:152-170 | From any screen that shows its history: a write leaves it showing the history if and only if the output does not end the line being written, or scrolls, or ends that line in a column that was blank before the write |
| Console.WriteDisplays | student-distrib/terminal.c:152-170 | While no line is longer than 79 characters, every write leaves rows 0 to 23 of the screen showing the history, although a newline cell leaves what was shown there |
| Console.LateNewlineStays | student-distrib/lib.c:102-109 | The failing input: a line of characters other than spaces, written on its own to a blank screen and ended by a later write, is shown right if and only if it has fewer than 80 |
| Console.BackgroundWrite | student-distrib/terminal.c:152-170 | After output to a terminal in the background, it and the active one stand for their histories if and only if the output is empty, or ends a line while both cursors are in row 23 and leaves as many characters behind its last newline as either line had |
| Console.Screens.TerminalWrite | student-distrib/terminal.c:152-170 | Writes the whole C string whatever the count says into the named terminal's buffer at the cursor of the active one, returns the count and shows the active buffer; says exactly when the terminals still stand for their histories and when the screen still shows the active one |
| Console.Screens.TerminalSwitch | student-distrib/terminal.c:214-229 | Rows 0 to 23 of the screen show the new terminal's history; every terminal keeps its cursor and counters if and only if the old terminal named is the active one, or the saved cursors of both equal the one in use |
| Blink.RunKeepsWellFormed | fish/blink.S:105-300 | Over every run of add, remove, sync and tick with non-zero locations the list stays acyclic and free of duplicates, consists of exactly the slots with a location, and the next slot to be handed out is not on it |
| Blink.AddKeepsWellFormed | fish/blink.S:105-162 | Adding keeps the list well formed if and only if the new node has a location, and uses a clear slot that was not on the list |
| Blink.AddSucceeds | fish/blink.S:129-151 | Adding succeeds if and only if the location is on the screen and fewer than 2000 nodes are listed; otherwise it returns -1 and changes nothing |
| Blink.SecondAtZeroLoops | fish/blink.S:157-162 | A second node at location 0 takes the slot of the first and links to itself |
| Blink.AddThenRemoveRestores | fish/blink.S:105-237 | Adding a node and removing its location gives back the same list and the same pool, slot for slot |
| Blink.AddedNode | fish/blink.S:105-162 | A node added stands in front of the list in the first slot without a location, with status 1, its countdown at its on-length and all else as given; no other slot changes |
| Blink.RemoveByLocation | fish/blink.S:187-237 | The first listed node at the location leaves the list and its slot becomes clear; every other slot keeps all but its link |
| Blink.RemoveFails | fish/blink.S:187-237 | A removal returns -1 if and only if no node is listed at the location, and then changes nothing |
| Blink.SyncByLocation | fish/blink.S:240-275 | For the argument 65536 * a + b, the first listed node at b takes over lengths, countdown and status of the first one at a, and keeps the rest; no other slot changes |
| Blink.SyncSucceeds | fish/blink.S:248-300 | It returns 0 if and only if nodes are listed at both locations, and otherwise -1 without a change |
| Blink.UnlinkKeeps | fish/blink.S:187-223 | Removing the node at any position keeps the list well formed |
| Blink.BlinksInTurn | fish/blink.S:60-90 | A node is on for its on-length and off for its off-length, over and over, t ticks after it was added for every t and every pair of 16-bit lengths, where a length outside 1..32768 counts as 1 |
| Blink.LengthsAreFollowed | fish/blink.S:60-90 | The node is on at tick t exactly when t mod (on + off) < on, for all t, if and only if both lengths are between 1 and 32768 |
| Blink.NodeAges | fish/blink.S:60-90 | Through any run that neither removes nor synchronises a node, only the ticks change it, whatever happens to the others |
| Blink.AddedNodeBlinks | fish/blink.S:105-162 | From the moment it is added, the number of ticks alone decides whether a node is on |
| Blink.SynchronisedStayTogether | fish/blink.S:240-275 | After a sync of the first nodes at two locations, the one named by the upper half of the argument keeps its course, and that of the lower half has the same status and countdown as it after any run, until one is removed or synchronised again |
| Blink.BlinkList.Malloc | fish/fish.c:161-171 | Finds the first slot without a location, or none |
| Blink.BlinkList.FindHelper | fish/blink.S:351-379 | The walk ends at the first listed node with the location, or at the end of the list |
| Blink.BlinkList.AddNode | fish/blink.S:105-184 | Refines the abstract step in memory: node started, inserted in front, or -1 and no change |
| Blink.BlinkList.RemoveNode | fish/blink.S:187-237 | Refines the abstract step: unlinks the first node with the location and clears its slot, or -1 and no change |
| Blink.BlinkList.FindPrevious | fish/blink.S:206-213 | The second walk ends at the link that leads to the node |
| Blink.BlinkList.Synchronise | fish/blink.S:240-300 | Refines the abstract step: lengths, countdown and status copied between the nodes of the two halves of the argument, or -1 and no change |
| Blink.BlinkList.Tasklet | fish/blink.S:49-99 | The walk ticks every listed node exactly once and touches no other slot |
| Memory.CopyIsExactUnlessItClobbers | student-distrib/lib.c:478-517 | For every alignment, length and distance: `memcpy` copies right whatever the memory holds, if and only if the destination does not start inside the source after its first byte, or the copy is one aligned double word |
| Memory.CopyIsMove | student-distrib/lib.c:478-517 | Chunk by chunk gives the same memory as all bytes at once when the destination does not start inside the source |
| Memory.MovedAt | student-distrib/lib.c:478-550 | Of the memory after a move, each byte of the destination is the byte that stood at its distance in the source and each other byte is as it was |
| Memory.LosesByte | student-distrib/lib.c:478-517 | Otherwise there is a byte of the source that the first chunk overwrites before it is copied |
| Memory.BytesOfDword | student-distrib/lib.c:497-501 | Loading and storing a double word, least significant byte first, reproduces its four bytes |
| Memory.Memset | student-distrib/lib.c:377-413 | For every alignment and length exactly the n bytes become the low byte of the argument, and no other byte changes |
| Memory.FilledAt | student-distrib/lib.c:377-413 | Of the memory after a fill, each of the n bytes from s on is the low byte of the argument and each other byte is as it was |
| Memory.Memcpy | student-distrib/lib.c:478-517 | The three loops do the abstract chunked copy, and a plain copy when the destination does not start inside the source |
| Memory.Memmove | student-distrib/lib.c:530-550 | For every overlap the destination holds the old bytes of the source and no other byte changes |
| Numerals.NumeralIsUnique | student-distrib/lib.c:290-323 | The numeral of a value is the one non-empty string of digits without a leading zero that evaluates to it, for every radix from 2 to 36 |
| Numerals.DigitsEvaluate | student-distrib/lib.c:306-315 | The digits written are digits of the radix, evaluate to the value and start with no zero |
| Numerals.DigitTable | student-distrib/lib.c:293-293 | Every digit is the entry of the table "0123456789ABCDEFGHIJKLMNOPQRSTUVWXYZ" |
| Numerals.WordsFit | student-distrib/lib.c:290-323 | A 32-bit value has at most 32 digits in any radix and at most 8 in base 16 |
| Numerals.Itoa | student-distrib/lib.c:290-323 | The buffer holds the numeral ended by a NUL, and no other byte changes |
| Numerals.EmitDigits | syscalls/ece391support.c:65-74 | The loop writes the digits in reverse order and ends |
| Numerals.Strrev | student-distrib/lib.c:333-348 | Reverses the string in place and changes no other byte |
| Numerals.Hexadecimal | student-distrib/lib.c:164-183 | Shows exactly 8 digits of base 16 that evaluate to the word |
| Arguments.JoinThenSplit | syscalls/ece391emulate.c:76-157 | Joining arguments and splitting the result gives them back if and only if each is non-empty and free of spaces, newlines and NULs |
| Arguments.CommandIsSplit | syscalls/ece391emulate.c:68-100 | A command made of a name and joined arguments is split into "./" and the name, and those arguments |
| Arguments.ArgumentsAreWords | syscalls/ece391emulate.c:86-99 | Whatever the text, every argument found is non-empty and free of separators |
| Arguments.ArgumentsGrow | syscalls/ece391emulate.c:86-99 | For any text, byte by byte: a space adds nothing, and another byte starts an argument at the start and after a space, and belongs to the last argument otherwise |
| Arguments.AnySpacing | syscalls/ece391emulate.c:86-99 | Words set apart by one or more spaces, with any number in front and behind, are found as they are |
| Arguments.OnlySpacesAreLost | syscalls/ece391emulate.c:86-99 | The arguments laid end to end are the text without its spaces |
| Arguments.NewlineSplits | syscalls/ece391emulate.c:86-99 | A newline right after a word separates like a space, whatever follows; one where a word could start ends the arguments |
| Arguments.NameIsFirst | syscalls/ece391emulate.c:76-84 | The name run is "./" and the command up to its first space, newline or NUL, and the rest behind that byte is split |
| Arguments.Tokenise | syscalls/ece391emulate.c:68-100 | Refuses commands of more than 1023 characters; for any other ends with fewer than 1024 strings cut in place, which are the arguments of the command, and a NULL after them |
| Arguments.SplitArguments | syscalls/ece391emulate.c:86-99 | The loop cuts the text in place and points at exactly its arguments, in order; strings found earlier stay intact |
| Arguments.Getargs | syscalls/ece391emulate.c:132-157 | Succeeds if and only if the joined arguments and a NUL fit in the count, and then stores exactly them; the byte just past the count becomes a NUL if and only if some of the arguments, from the first on, fill the count exactly, and nothing further changes |
| Clock.SystemTime.Advance | student-distrib/terminal.c:370-417 | After any number n of calls the digits are in range and show n mod 3600 seconds |
| Clock.OneReading | student-distrib/terminal.c:26-26 | Digits in range that count up to n seconds are the one reading for n |

## Left out

- FileTable.FileTable.Read: does not model reading the keyboard (`terminal_read` waits for interrupts) or NULL buffers; a clock read is its result after the next tick. The request is below 2^31, as a 32-bit signed count is.
- FileTable.FileTable.Write: does not model writing to the clock, which programs the rate of the timer; nor does `Output.Write`.
- FileTable.FileTable.Open: the source scans past slot 7 for a free slot and reads whatever lies behind the table before it refuses; the model refuses at slot 8, with the same result.
- FileTable.FileTable.DirRead: the reported length is that of the string in the array it is given, so the array stands for the memory from the buffer on up to some NUL, as in `Listing`.
- Listing.ListDirectory: requires more NULs in the memory behind the buffer than the directory has entries, since each name of 32 bytes overwrites one.
- Listing.Ls: requires that an entry named ".", if there is one, is the directory.
- Grep.DoOneFile: requires a file without NUL bytes and a byte after the window that is not a newline, which the source never sets; a short read stands for the end of the file, as `read` guarantees. The C type `char` is signed, as in the 32-bit compiler the programs are built with.
- Grep.DoOneFile: does not model the directory loop of grep's `main`; `Listing` models the one of ls.
- Paging.PageTables.Access: does not model the translation buffer, the control registers or the CR3 load; `cur_PD` is not the directory in use, and no member says it is.
- Processes.ProcessTable.Execute: takes whether the program loads as a parameter, which `Execute.ExecuteProgram` computes.
- Execute.ExecuteProgram: does not model splitting the command, the descriptor table of the new process (`FileTable` does), the two ring entries (`Scheduler` does), stack switching, the task state segment and the jump to user mode; a page fault ends the call.
- Processes.ProcessTable.Halt: does not model the exit status and the return to the parent's stack.
- Processes.ProcessTable.constructor: requires that memory no process has used yet holds no set child flag.
- Scheduler.TaskRing.Scheduling: the call from the timer is commented out in the source; the algorithm is modelled as it stands, from a well-formed ring.
- Console.Screens.TerminalSwitch: does not model the mouse's call with terminal 3, an index past the saved cursors.
- Console.Screens.PutCout: the counters and the row of the screen cursor are unbounded, where the source's are 32-bit.
- Blink.BlinkList.AddNode: does not model the characters shown on the screen by add, sync and the tasklet; the conditional move of sync never picks the on character.
- Memory.Memmove: does not model the direction flag, which a backward copy leaves set.
- Arguments.Tokenise: does not model starting the program and its exit status.
- Keyboard input, `setb`, `backspace`, `new_line` and the attribute bytes of the screen: not modelled.
- The kernel's own `parse`, `get_arg` and `getargs`, which write into string literals: not modelled; the emulator's splitter and joiner are.
- `printf` and `cout` format strings other than `%#x`, `strcpy`, `strncpy`, `strcmp`, `memset_word` and `memset_dword`: left out as easy members beside those modelled.
- Interrupt controllers, timer, clock, mouse, sound, boot screen, boot code and the remaining user programs: not modelled.

# LumettaOS: a model of the kernel and its programs

LumettaOS is a small x86 kernel with a handful of user programs. This project models the parts of it
that keep state over whole runs, in Dafny, and proves each against a much simpler description:

- **`Screen`, `Keyboard`** - video memory with wrap, scroll and backspace is the window of an endless
  tape; the keyboard handler's 128-byte buffer is a push/pop line with a cap; echo and buffer agree.
- **`Paging`, `Command`, `Processes`, `SystemCalls`, `Runs`, `Lifetimes`** - the page directory, the TLB as
  a cache of page walks, and every system call over six slots are a stack of launched processes, each in
  its own frame and with its own open files, through page faults, copies by the kernel and slot reuse.
- **`FileSystem`, `Descriptors`** - the block-indexed read is a slice of the file; the descriptor table
  is a map from descriptor to open file and position.
- **`Grep`, `Frames`, `Arguments`** - the streaming loops of `grep` and `fish` and the in-place word
  splitter of the emulation library, against list functions.
- **`Blink`** - the list `fish` links through a fixed pool is a sequence; each character's countdown is
  a closed formula in time.
- **`MemoryOps`, `Numbers`, `Rtc`** - `memset`/`memcpy`/`memmove`, `itoa` and `%#x`, the virtual clock.
- **`Counterexamples`** - one concrete input for each property the source sets out to keep and does not.

`Bytes` holds bytes, words, C strings and lines; `Arith` holds facts about quotients and powers.
Objects and buffers that the source changes in place are classes and arrays here, and their methods
are proved against functions on values; the theorems are about those functions. Bit fields with fixed
masks (`key_status`) are records of booleans; 32-bit and 16-bit wrap-around is written out where it
can happen. What the environment decides is a parameter: the bytes behind a command in memory, what
the processor caches between a directory change and a flush, the stack pointer inside a system call
(only required to be in the running process's 8 KiB), what a device read returns.

Where the source does not keep what it sets out to do, the model follows the source, a lemma gives the
exact condition and another a concrete input that fails:

| what fails | exactly when | input |
|---|---|---|
| a tab near the end of a row leaves the screen | `Screen.StreamRefines` | `TabInColumn76` |
| Tab, Escape and Ctrl+L make echo and buffer disagree | `Keyboard.EchoAgreesIff` | `TabOnEmptyLine` |
| keys typed between Enter and the read change the line | `Keyboard.TypeAheadIff` | `KeyBeforeRead` |
| a matching line longer than the buffer is cut up | `Grep.GrepIsExactIff` | `LongMatchingLine` |
| a read whose end wraps around 2^32 miscounts | `FileSystem.CopyCountIff` | `ReadMinusOne` |
| a listing shows the 64 bytes behind the directory | `Descriptors.ListingExactIff` | `ListingRunsOn` |
| bytes behind a short command become arguments | `Command.ScannedArgsIff` | `StrayArgument` |
| the kernel copies into a buffer in its own 4 MiB | `Processes.CopyMeetsBlockIff` | `BufferAtFourMegabytes` |
| a new process inherits descriptors 6 and 7 | `Lifetimes.SlotReused` | `Lifetimes.SomeSlotKeepsFile` |
| blink lengths of 0 or above 32768 last one tick | `Blink.AsGivenIff` | `NeverOnIsOn`, `Blink.FailingTick` |
| a blinking character at location 0 | `Blink.AddLinks`, `Blink.AddAtZeroThenAdd` | `TwiceAtLocationZero` |
| `ece391_getargs` writes behind its buffer | `Arguments.GetArgs` | `WordFillsBuffer` |

A directory descriptor reads one entry more than the directory has (`boot->nent < i` is the test), and the
model follows that: `ListingExactIff` says what a full listing returns.

`dafny verify dfyconfig.toml` checks the project.

## Model

| member | source | states |
|---|---|---|
| `Grep.DoOneFile` | syscalls/ece391grep.c:9-66 | For every NUL-free file and every needle the chunked loop with its in-place compaction writes exactly the pieces of the file that contain the needle, each once, in order and behind the file's name and a colon, an unterminated last line included, and terminates; a message and -1 if the file cannot be opened or closed, and a first part of those pieces, a message and -1 if a read fails |
| `Grep.ReportSplits` | syscalls/ece391grep.c:45-48 | What is written splits back into one line for each piece reported, with the file's name and a colon before it |
| `Grep.GrepIsExactIff` | syscalls/ece391grep.c:20-60 | What is printed equals the matching lines of the file if and only if no matching line is longer than 1024 bytes |
| `Grep.GrepIsExactIfShort` | syscalls/ece391grep.c:28-57 | The buffer does not show when every matching line fits into it, whatever the other lines are |
| `Grep.LongMissIsSilent` | syscalls/ece391grep.c:33-56 | A line that fills the buffer contributes the same cut up or whole |
| `Grep.ScanBuffer` | syscalls/ece391grep.c:28-57 | One filled buffer: what is printed and what is carried to the front together stand for the same text as before |
| `Grep.AfterLine` | syscalls/ece391grep.c:30-56 | Taking the first line off the buffered text is taking off the first piece of the file |
| `Grep.LineEnd` | syscalls/ece391grep.c:30-32 | The scan stops at the first newline or at the end of the data |
| `Grep.SearchLine` | syscalls/ece391grep.c:40-51 | The line is printed exactly when the needle occurs in it; a needle that is empty or starts with a byte of 128 or more is found nowhere |
| `Grep.StrNCmp` | syscalls/ece391support.c:35-46 | Zero exactly when the needle stands at the position, inside the line |
| `Grep.StrCpyDown` | syscalls/ece391support.c:14-17 | The overlapping forward copy moves the string to the front and changes nothing behind it |
| `Grep.CopyDown` | syscalls/ece391grep.c:33-39 | The unfinished line is the start of the buffer afterwards |
| `Screen.StreamRefines` | student-distrib/lib.c:485-591 | For every byte stream: the cursor stays on the screen after every byte exactly when every tab has five columns left, and then the 25x80 cells are the tape's window at its top row, the cursor its head |
| `Screen.PutRefines` | student-distrib/lib.c:560-591 | One character on the screen is one character on the tape, wrap and scroll included |
| `Screen.ScrollRefines` | student-distrib/lib.c:485-499 | Scrolling is moving the window down one row |
| `Screen.BackspaceRefines` | student-distrib/lib.c:540-553 | Backspace moves the head back and blanks the cell, and stops at the window's first cell |
| `Screen.AdvanceRefines` | student-distrib/lib.c:575-589 | The cursor after a printed character is the head's next cell, on a scrolled screen if need be |
| `Screen.AttributesKept` | student-distrib/lib.c:485-591 | Whatever is written, tabs included, every visible cell keeps the one attribute although scrolling moves none |
| `Screen.HistoryKept` | student-distrib/lib.c:485-591 | What scrolled off the screen is never written again |
| `Screen.TextLiesOnTape` | student-distrib/lib.c:572-584 | Printable text lies on the tape cell by cell as it was sent, across row ends and scrolls, and nothing else changes |
| `Screen.ClearedRefines` | student-distrib/lib.c:525-530 | A cleared screen is the window of the blank tape |
| `Screen.Display.Clear` | student-distrib/lib.c:20-26 | Video memory holds 2000 spaces with the attribute; memory behind is untouched |
| `Screen.Display.ClearTerm` | student-distrib/lib.c:525-530 | As above, with the cursor in the corner |
| `Screen.Display.ScrollTerm` | student-distrib/lib.c:485-499 | The in-place loops move every row up, blank the last and leave all attributes |
| `Screen.Display.BackspacePressed` | student-distrib/lib.c:540-553 | The new cursor and cell, or a fault past the mapped pages |
| `Screen.Display.PutcTerm` | student-distrib/lib.c:560-591 | Video memory and cursor become what the screen function says, for every byte and cursor |
| `Screen.Display.TerminalWrite` | student-distrib/terminal.c:67-83 | A positive count shows that many bytes in order; any other count is refused and shows nothing |
| `Keyboard.LineDelivered` | student-distrib/keyboard.c:225-263 | For every key run up to its only Enter, the reader gets exactly the push/pop edit of the keys capped at 127 and a newline, despite stale bytes, and the editor is ready again |
| `Keyboard.SessionDelivered` | student-distrib/terminal.c:29-62 | The same, line after line, for sessions of any length |
| `Keyboard.EditingKept` | student-distrib/keyboard.c:229-250 | While a line is typed the buffer begins with it and holds no newline |
| `Keyboard.TypeAheadIff` | student-distrib/keyboard.c:229-262 | For every run of keys between Enter and the read, further Enters included: the reader gets the finished line exactly when what the keys leave stored over it and its newline is what was there |
| `Keyboard.EchoAgreesIff` | student-distrib/keyboard.c:225-263 | If the tape from the line's start to the cursor is the buffer up to its index, it still is after a key exactly when the key is no stored Tab or Escape and no Ctrl+L on a line that is not empty |
| `Keyboard.EchoAgreesThroughoutIff` | student-distrib/keyboard.c:166-269 | Over every run of keys and lines: echo and buffer agree after every key exactly when no key of the run is such a key |
| `Keyboard.StoredAgrees` | student-distrib/keyboard.c:242-250 | A stored character agrees across row ends and scrolls, because a capped line never leaves the window |
| `Keyboard.BackspaceAgrees` | student-distrib/keyboard.c:230-241 | A backspace takes the last byte off both sides |
| `Keyboard.EnterAgrees` | student-distrib/keyboard.c:251-263 | After Enter, also when the newline is echoed twice, the next line starts at the cursor |
| `Keyboard.EnterMoves` | student-distrib/keyboard.c:251-263 | Enter moves the cursor to the start of the next row, and of the one after it exactly when 126 bytes were on the line |
| `Keyboard.TabUndone` | student-distrib/keyboard.c:230-241 | A Tab that is taken back, with room in the row, leaves the line and the cursor as they were and four cells blank |
| `Keyboard.ClearAgreesIff` | student-distrib/keyboard.c:225-226 | After Ctrl+L the buffer agrees with the screen from its corner on exactly when the line was empty |
| `Keyboard.LetterCase` | student-distrib/keyboard.c:122-155 | A letter key types a capital exactly when one of Shift and Caps Lock is in effect; Caps Lock does not affect other keys |
| `Keyboard.KeyRows` | student-distrib/keyboard.c:27-106 | The text the four rows of keys type, without and with Shift |
| `Keyboard.EditingKeys` | student-distrib/keyboard.c:27-106 | Escape, Backspace, Tab, Enter and the space bar type the same whatever is held |
| `Keyboard.ClearKeyIff` | student-distrib/keyboard.c:225-226 | The screen is cleared by Ctrl with the key that types an l, and by no other key |
| `Keyboard.ModifiersHold` | student-distrib/keyboard.c:171-221 | For every run of keys: Shift, Ctrl and Alt are held exactly when the last press or release of one was a press; Caps, Num and Scroll Lock have changed exactly when their presses are odd in number |
| `Keyboard.Terminal.StandardKey` | student-distrib/keyboard.c:228-263 | Buffer, index and flag become the line function's, the screen shows its echo actions in order |
| `Keyboard.Terminal.KeyboardHandler` | student-distrib/keyboard.c:166-269 | The same for every scancode, releases and modifiers included |
| `Keyboard.Terminal.TerminalRead` | student-distrib/terminal.c:29-62 | The caller's buffer holds the line up to its first newline, the shared buffer and the flag are cleared |
| `Keyboard.Terminal.StrNCpy` | student-distrib/lib.c:455-466 | The C string cut or NUL-padded to n bytes, nothing behind |
| `FileSystem.ReadData` | student-distrib/filesystem.c:129-155 | For every offset inside the file, length and block list, exactly the file's bytes from there on, as many as there are, although the block is looked up only on boundaries |
| `FileSystem.CopyCountIff` | student-distrib/filesystem.c:137-140 | The 32-bit count is the number of available bytes exactly when the offset is inside the file and the end of the request does not wrap around |
| `FileSystem.ContentsAt` | student-distrib/filesystem.c:142-151 | Byte k of the concatenated blocks is byte k % 4096 of block k / 4096 |
| `FileSystem.ReadDentryByName` | student-distrib/filesystem.c:97-109 | The first entry whose name equals the argument as a C string of at most 32 bytes, or none |
| `FileSystem.LookupFirst` | student-distrib/filesystem.c:100-107 | The entry found has the name and no earlier one has |
| `FileSystem.StrNCmp` | student-distrib/lib.c:418-432 | Zero exactly when the C strings cut to n bytes are equal |
| `Descriptors.RunReadsPrefixes` | student-distrib/filesystem.c:251-260 | For every interleaving of open, read and close: what was read through a regular file since its open is the file's prefix up to the position |
| `Descriptors.CallKeepsPrefixes` | student-distrib/syscall.c:246-423 | Each single call keeps that |
| `Descriptors.OpenThenRead` | student-distrib/syscall.c:285-300 | From the open of a regular file through every run that does not close it, what was read is a prefix of the contents of the inode that the name was looked up to |
| `Descriptors.ReadTwice` | student-distrib/filesystem.c:251-260 | Two reads in a row hand over what one read of both counts would, and leave the same position |
| `Descriptors.OpenFailsIff` | student-distrib/syscall.c:246-310 | Open fails exactly when no entry has the name, or it has a known type and descriptors 2 to 7 are all busy; it returns 0 and opens nothing exactly for an unknown type, and otherwise the least free descriptor |
| `Descriptors.OpenRefines` | student-distrib/syscall.c:246-310 | The descriptors of a control block, opened into, stand for the map the open function says, for every state of the closed ones |
| `Descriptors.ReadRefines` | student-distrib/syscall.c:361-396 | The same for read; its end wraps around in 32 bits exactly when the map says so, and the bytes stored include a directory name's NUL |
| `Descriptors.CloseRefines` | student-distrib/syscall.c:404-423 | The same for close |
| `Descriptors.CloseIff` | student-distrib/syscall.c:404-423 | Close succeeds exactly on the descriptors 2 to 7 in use, and only once; otherwise nothing changes |
| `Descriptors.CloseThenOpen` | student-distrib/syscall.c:246-423 | After a close the next open of a known type succeeds and takes that descriptor or a lower one |
| `Descriptors.NamePrefixIs` | student-distrib/filesystem.c:188-197 | A directory name with a NUL is handed over up to the NUL and the count, whatever lies behind it |
| `Descriptors.ListingExactIff` | student-distrib/filesystem.c:117-123 | Reading a directory until nothing comes gives exactly its names and ends well if and only if every entry has a name and the entry behind the last begins with a NUL; if only that one does not, it is shown too and the listing fails |
| `Descriptors.ZeroMeansAllRead` | student-distrib/filesystem.c:251-260 | A read of a positive count returns 0 exactly when the whole file has been read |
| `Descriptors.OthersUndisturbed` | student-distrib/syscall.c:361-423 | No call disturbs another descriptor |
| `Descriptors.NonNegativeFits` | student-distrib/syscall.c:361-396 | A count that is not negative never wraps around |
| `Descriptors.Process.SysOpen` | student-distrib/syscall.c:246-310 | The table refines the map: result and new map are those of the open function |
| `Descriptors.Process.SysRead` | student-distrib/syscall.c:361-396 | The same for read, the bytes in the caller's buffer included |
| `Descriptors.Process.SysClose` | student-distrib/syscall.c:404-423 | The same for close |
| `Descriptors.Process.FileRead` | student-distrib/filesystem.c:251-260 | The bytes at the position, which moves by what was read |
| `Descriptors.Process.DirRead` | student-distrib/filesystem.c:180-198 | For every count: the name at the position up to its NUL, a name of 32 bytes running on into the type, with the NUL stored if there is room, and the position moves by one |
| `Paging.UserReach` | student-distrib/paging.c:67-96 | By the page walk, user code reaches exactly 128-132 MiB, which is the process's own frame, and the eight video pages above 132 MiB |
| `Paging.KernelReach` | student-distrib/paging.c:67-96 | Only the kernel reaches 4-8 MiB and the video pages below 1 MiB, both mapped onto themselves; with UserReach this is the whole address space |
| `Paging.FramesDisjoint` | student-distrib/syscall.c:157 | Frames of different processes, the kernel's 4 MiB and video memory do not overlap |
| `Paging.UserEntryBits` | student-distrib/syscall.c:155-158 | The directory entry built for a process is a present, writable, user 4 MiB page on its frame |
| `Paging.StaleAfterChgDirIff` | student-distrib/paging.c:103-114 | Why execute and halt flush: between processes, a directory change alone leaves the TLB right exactly when no page of 128-132 MiB is cached |
| `Paging.PhysOfIsWalk` | student-distrib/paging.c:67-96 | Byte by byte, where every virtual address leads while a process runs, through a coherent TLB |
| `Paging.FillsCoherent` | student-distrib/paging.c:109-114 | Caching walks never makes a right TLB wrong |
| `Paging.PageStructures.PageInit` | student-distrib/paging.c:67-96 | Whatever the arrays held, they are the video table and the directory of the walk theorems |
| `Paging.PageStructures.SpawnDir` | student-distrib/paging.c:40-48 | The directory is cleared |
| `Paging.PageStructures.SpawnTbl` | student-distrib/paging.c:54-59 | The table is cleared |
| `Command.ScannedArgsIff` | student-distrib/syscall.c:107-129 | The argument buffer holds the text after the first run of spaces, cut at command index 128, exactly when memory behind a short command offers no stray argument |
| `Command.ScannedName` | student-distrib/syscall.c:107-112 | Whatever lies behind the NUL, the name looked up is the first word cut to 32 bytes |
| `Command.Scan` | student-distrib/syscall.c:99-129 | The two buffers after the scans; the argument buffer ends in a NUL |
| `Command.GetArgs` | student-distrib/syscall.c:431-463 | Succeeds exactly when there is an argument and it fits with its NUL, and then hands over that string and nothing behind the count; otherwise the buffer is untouched |
| `Processes.SlotOfIff` | student-distrib/filesystem.c:49-63 | get_pcb finds slot p from exactly the stack pointers in p's 8 KiB, at whose bottom its control block lies |
| `Processes.StackTopSlot` | student-distrib/syscall.c:184-186 | The stack a trap lands on belongs to the process being started |
| `Processes.PushesStay` | student-distrib/syscall.c:184-186 | The trap stack starts at the top of the slot's 8 KiB, and everything pushed down to the control block stays in the slot |
| `Processes.SwitchCoherent` | student-distrib/syscall.c:154-159 | Whatever is cached between the directory change and the flush and after it, every TLB entry agrees with a fresh walk that maps the new process |
| `Processes.LoadableIff` | student-distrib/syscall.c:131-145 | What can be executed are exactly the regular files that begin with DEL and ELF; the entry point is the little-endian word at bytes 24 to 27 |
| `Processes.StoreAllLands` | student-distrib/filesystem.c:145-152 | A copy by the kernel gets to its end exactly when the mapped bytes from its start on suffice; the bytes that fit lie one behind the other in physical memory and nothing else changes |
| `Processes.CopySeen` | student-distrib/syscall.c:460 | A copy that got to its end can be read back through the mapping |
| `Processes.CopyMeetsBlockIff` | student-distrib/filesystem.c:145-147 | A copy to a caller's buffer, which is not checked, reaches a slot's control block and kernel stack, or the kernel's 4 MiB at all, exactly when the buffer's addresses meet them; it never reaches another process's frame |
| `Processes.WrappedReadFaults` | student-distrib/filesystem.c:137-152 | A read whose end wraps around copies more bytes than any buffer has mapped, so it never returns |
| `Runs.StepRefines` | student-distrib/syscall.c:51-478 | Every execute, halt, open, read, close, getargs, vidmap, user store and access does to the machine what it does to a stack of processes with their open files; results, entries and resumptions are the stack's, it ends in a page fault exactly when the stack says so, and otherwise exactly the bytes the stack says come to lie in physical memory, where it says |
| `Runs.ExecuteRefines` | student-distrib/syscall.c:98-228 | The same for execute; one that returns has changed nothing, one that enters has loaded the program |
| `Runs.ExecuteDecides` | student-distrib/syscall.c:107-149 | By the first word of the command line: an empty one returns 0, one that begins with quit halts, and otherwise the result is -1 without such a program or a free slot, a fault if it does not fit, and else its entry |
| `Runs.HaltRefines` | student-distrib/syscall.c:51-89 | Halt pops the stack and resumes the frame its execute saved, storing nothing; the root shell is replaced by a new one, whose program is loaded and whose arguments are scanned from the literal and the bytes behind it |
| `Runs.StartRefines` | student-distrib/syscall.c:131-202 | A launch takes the first free slot k, with pid k and parent k-1, slots in use staying a prefix, and puts the file its command names into the slot's frame; it faults exactly when the program is longer than the room behind its load address |
| `Runs.IoRefines` | student-distrib/syscall.c:246-423 | Open, read and close change the running process's map of open files as the descriptor functions say; a read into a buffer outside the kernel's 4 MiB stores exactly the bytes those say and nothing else, and faults exactly when it wraps around or the buffer has too few mapped bytes |
| `Runs.ReadSeen` | student-distrib/filesystem.c:145-152 | After a read that returns, the caller's buffer reads back as the file's bytes, the directory's name or the typed line |
| `Runs.ArgsRefines` | student-distrib/syscall.c:431-463 | Getargs through the mapping: the result, the string read back, and a fault exactly when the buffer has too few mapped bytes or the bytes read go past 8 MiB |
| `Runs.VideoRefines` | student-distrib/syscall.c:471-476 | Vidmap fails off 128-132 MiB, and faults exactly for the four addresses it accepts whose pointer does not fit |
| `Runs.VideoSeen` | student-distrib/syscall.c:471-476 | What vidmap stores is the little-endian address 132 MiB + 0xB8000, which user code may write |
| `Runs.UserStoreRefines` | student-distrib/idt.c:194-198 | A user store faults exactly off the process's own 4 MiB and the upper video pages |
| `Runs.ShellLoads` | student-distrib/syscall.c:62-66 | Whatever lies behind the literal, it names the shell |
| `Runs.BootLaunches` | student-distrib/kernel.c:169-171 | The first shell establishes all of this from zeroed control blocks, with only the terminal open |
| `Runs.BootEntersIff` | student-distrib/kernel.c:169-171 | A machine boots into a shell exactly when the image has one that can be loaded and fits; otherwise the first execute returns -1, if there is none, or faults |
| `Runs.MachineRun` | student-distrib/syscall.c:51-478 | After every run the slots in use are a prefix, the running process is the last, its frame is mapped and the TLB agrees, and every slot's descriptors stand for the stack's files |
| `Lifetimes.UserSeesOwnFrame` | student-distrib/paging.c:67-114 | In every reachable state user code reaches, through the TLB as it is, exactly its own frame and the video pages |
| `Runs.BelowIsKept` | student-distrib/syscall.c:51-478 | No run that stays above a process changes its place in the stack or a file of those below it |
| `Lifetimes.StepStaysOut` | student-distrib/syscall.c:51-478 | None of these events changes the memory of a process that is not running, whether it ends well or in a fault |
| `Lifetimes.RunStaysOut` | student-distrib/syscall.c:51-478 | Nor does any run of them that stays above it |
| `Lifetimes.ResumedIntact` | student-distrib/syscall.c:51-228 | After every run of these events by the launched process and its descendants, none with a buffer in the kernel's 4 MiB, and an end by halt or `quit`: the launcher resumes exactly where it called execute, with the value in -128..127 that is the status modulo 256, all its open files at their positions, and all its memory |
| `Lifetimes.LaunchRuns` | student-distrib/syscall.c:131-228 | A launched process starts with the file named by the command line's first word at 0x8048000, at that file's entry point |
| `Lifetimes.ArgsReachProcess` | student-distrib/syscall.c:113-152 | In every later state in which the launched process runs, getargs with a buffer of 128 bytes or more, as long as the count does not go past 8 MiB, returns the command line's argument text, or fails if there is none, exactly when there were no stray arguments |
| `Lifetimes.SlotReused` | student-distrib/syscall.c:169-175 | Over every run from the end of a process to the next launch in its slot: the new process has 6 and 7 open exactly as the old one left them, file and position, and so 2 to 7 free exactly when that had closed both |
| `Lifetimes.ShellReused` | student-distrib/syscall.c:62-66 | The same for a root shell that halts or quits and is started again, file and position included |
| `Lifetimes.SomeSlotKeepsFile` | student-distrib/syscall.c:55-60 | A run in which five opens, a halt and a launch leave the new process with descriptor 6 in use |
| `Lifetimes.RootHaltIff` | student-distrib/syscall.c:62-77 | In a state with a running root shell, its halt leaves a running process exactly when the shell can be loaded and fits |
| `Lifetimes.RootHaltRestarts` | student-distrib/syscall.c:62-66 | From boot through every run, whenever the root shell halts or quits, a shell is started again |
| `Lifetimes.SomeLaunchReturns` | student-distrib/kernel.c:155-171 | There are an image, a booted machine, a launch, a run and an end that meet the premises of ResumedIntact |
| `SystemCalls.Kernel.SysExecute` | student-distrib/syscall.c:98-228 | The kernel's variables become what the execute transition says, for every command, a faulting load included |
| `SystemCalls.Kernel.SysHalt` | student-distrib/syscall.c:51-89 | The same for halt, which calls execute on the shell's literal; the fall-through without a shell included |
| `SystemCalls.Kernel.RunProgram` | student-distrib/syscall.c:131-202 | The same from the lookup on, the load included |
| `SystemCalls.Kernel.FindProgram` | student-distrib/syscall.c:131-145 | A program is a regular file that starts with the ELF magic number; its entry point is the little-endian word at byte 24 |
| `SystemCalls.Kernel.FindSlot` | student-distrib/syscall.c:146-149 | The first control block that is not active, or six |
| `SystemCalls.Kernel.SetUpFds` | student-distrib/syscall.c:169-175 | 0 and 1 are the terminal, 2 to 5 closed, 6 and 7 as they were |
| `Blink.OnExactlyInFirstPhase` | fish/blink.S:64-86 | For every pair of lengths and every t, a character that was never synchronized is on t ticks after its add exactly when t mod the period is in the first part |
| `Blink.PhaseAfter` | fish/blink.S:64-86 | Its whole state after t ticks, in closed form |
| `Blink.GlyphAfter` | fish/blink.S:64-86 | At every tick an added character stands where it was added and shows its on-character in the first part of the period and its off-character in the second |
| `Blink.AsGivenIff` | fish/blink.S:64-86 | A character is on for onLen of every onLen + offLen ticks, at every tick, if and only if both lengths are in 1..32768 |
| `Blink.FailingTick` | fish/blink.S:64-86 | For any other lengths, a tick at which that shows |
| `Blink.SyncedInLockstep` | fish/blink.S:267-275 | After a sync the two characters are in the same phase at every later tick |
| `Blink.SyncSpecLockstep` | fish/blink.S:240-275 | In a whole list: the second character takes lengths and phase of the first at every later tick and keeps its place and its two characters; all others, the first included, blink on as before |
| `Blink.TickAllIs` | fish/blink.S:49-99 | Every character of the list keeps its own time |
| `Blink.AddLinks` | fish/blink.S:159-162 | A free slot put in front keeps the list acyclic and is not in it before; the slots in the list stay those with a location exactly when the new location is not 0 |
| `Blink.AddAtZeroThenAdd` | fish/blink.S:122-162 | After an add at location 0 the next add takes the same slot and links it to itself, and no list is left |
| `Blink.RemoveLinks` | fish/blink.S:206-217 | Bending one link past a slot leaves a list of the others in order |
| `Blink.RemoveExact` | fish/fish.c:172-175 | After zeroing, the slots in the list are again those with a location |
| `Blink.List.Malloc` | fish/fish.c:160-170 | The first slot with location 0, if there is one |
| `Blink.List.Add` | fish/blink.S:105-184 | Cons of the started character; fails exactly for a location off the screen or a full pool; the list and pool invariant survives exactly when the location is not 0 |
| `Blink.List.FindHelper` | fish/blink.S:351-379 | The first match, found by a walk that ends |
| `Blink.List.Find` | fish/blink.S:302-349 | A copy of the first match, or -1 |
| `Blink.List.FindPrev` | fish/blink.S:206-212 | The walk to the predecessor always ends there |
| `Blink.List.Unlink` | fish/blink.S:206-222 | Whichever link led to the slot, head or predecessor, now leads past it, and the slot is zeroed |
| `Blink.List.Remove` | fish/blink.S:187-237 | The first match leaves the sequence, and the invariant holds |
| `Blink.List.Sync` | fish/blink.S:240-300 | The first match at the second location takes the lengths and phase of the first match at the first |
| `Blink.List.Tasklet` | fish/blink.S:49-99 | Every character of the sequence is ticked once |
| `Frames.AddFrames` | fish/fish.c:78-148 | The adds issued are the characters of the two frames' ragged lines, and the loops end |
| `Frames.AddsExact` | fish/fish.c:118-130 | A character is added for a cell exactly when the two padded lines are not both blank there; it is on with the first file's byte and off with the second's, at location 80 * row + col + 40 in 16 bits |
| `Frames.AddsSorted` | fish/fish.c:98-147 | The cells come strictly in row-major order, so each comes once |
| `Frames.AddRow` | fish/fish.c:99-144 | One row: both lines are read to their ends in step and their cells added |
| `Frames.Stream.Fetch` | fish/fish.c:102-116 | A byte is read only while the line has not ended, never from a closed descriptor |
| `Frames.Stream.EndRow` | fish/fish.c:132-144 | The next line begins behind the newline; only at the end of the file is the descriptor closed |
| `Arguments.Split` | syscalls/ece391emulate.c:67-100 | For every command of at most 1023 bytes the in-place splitter leaves the program with its path and the arguments as NUL-terminated words, at most 512; longer ones are refused |
| `Arguments.CommandWordsAre` | syscalls/ece391emulate.c:77-98 | For a command that begins with a word, these are its words with ./ in front of the first |
| `Arguments.SplitArgs` | syscalls/ece391emulate.c:87-98 | Words found stay in place while the rest is split |
| `Arguments.TokensAreFields` | syscalls/ece391emulate.c:88-98 | Without newlines the arguments are the non-empty fields between spaces |
| `Arguments.JoinThenSplit` | syscalls/ece391emulate.c:131-157 | Joining words and splitting again gives the words back |
| `Arguments.NormalisingTwice` | syscalls/ece391emulate.c:131-157 | Splitting and joining is idempotent |
| `Arguments.GetArgs` | syscalls/ece391emulate.c:131-157 | Succeeds exactly when the words, one space between them and a NUL fit, and then the buffer holds that text; the byte behind the count is overwritten exactly when some first words fill the buffer, and nothing behind that ever is |
| `MemoryOps.Memset` | student-distrib/lib.c:258-292 | For every alignment and length exactly the n bytes become the low byte of c |
| `MemoryOps.Memcpy` | student-distrib/lib.c:341-378 | For every alignment and length the destination holds the old source bytes and nothing else changed, unless the destination begins inside the source |
| `MemoryOps.Memmove` | student-distrib/lib.c:387-405 | The same for every overlap, through the choice of direction |
| `Numbers.Itoa` | student-distrib/lib.c:190-220 | For every 32-bit value and radix 2..36 the digits read back as the value, with no leading zero except for zero itself |
| `Numbers.DigitsAre` | student-distrib/lib.c:191 | The digit characters in order, 0 to 9 and A to Z |
| `Numbers.StrRev` | student-distrib/lib.c:226-239 | The string is reversed where it stands, nothing else changed |
| `Numbers.LastFirstValue` | student-distrib/lib.c:208-213 | The digits the loop produces, read in reverse, give the value |
| `Numbers.DigitCount` | student-distrib/lib.c:208-213 | A value below b^k has at most k digits in any radix from b on |
| `Numbers.FormatHex` | student-distrib/lib.c:85-95 | Exactly eight hexadecimal digits with the same value |
| `Rtc.AcceptedIff` | student-distrib/rtc.c:26-37 | The frequencies rtc_write accepts are exactly those rtc_set_rate finds a rate for |
| `Rtc.PowerOf2Mask` | student-distrib/rtc.c:108 | (n - 1) & n is zero exactly for the powers of two |
| `Rtc.SetRate` | student-distrib/rtc.c:26-37 | The rate found, or 0 when there is none |
| `Rtc.RunKeepsInv` | student-distrib/rtc.c:102-188 | Across every interleaving of open, write, read and interrupt the counter is below its limit and the limit times the frequency set last is 1024 |
| `Rtc.TicksAfterRun` | student-distrib/rtc.c:102-188 | From boot through every such run, the next n interrupts cause (counter + n) * f / 1024 ticks for the frequency f set last |
| `Rtc.BootInv` | student-distrib/rtc.c:10-13 | The initial values meet that invariant |
| `Rtc.TickCountIs` | student-distrib/rtc.c:170-178 | n interrupts cause (counter + n) / limit ticks |
| `Rtc.TicksAfterWrite` | student-distrib/rtc.c:106-115 | After a write of f, n interrupts cause exactly n * f / 1024 ticks, rounded down |
| `Rtc.FlagIsTicked` | student-distrib/rtc.c:170-178 | After n interrupts the flag is up exactly when it was before or a tick has come |
| `Rtc.ReaderWaits` | student-distrib/rtc.c:83-91 | Over every run from boot: after a read or an open the flag is up again exactly when the interrupts, with those counted already, make up one period of the frequency set last |
| `Rtc.FlagAfterWrite` | student-distrib/rtc.c:102-120 | After a write of f the flag is up exactly when it was or n * f reaches 1024 |
| `Rtc.Driver.Handler` | student-distrib/rtc.c:170-188 | The handler's step on the driver's variables, keeping the invariant |
| `Rtc.Driver.ReadTick` | student-distrib/rtc.c:83-91 | A read that returns takes the flag and changes nothing else |
| `Rtc.Driver.OpenClock` | student-distrib/rtc.c:131-142 | The same for open, which does not reset the counter |
| `Rtc.Driver.WriteFreq` | student-distrib/rtc.c:102-120 | The same for write, and its result |
| `Counterexamples.TabInColumn76` | student-distrib/lib.c:565-566 | A tab sent in column 76 leaves the cursor off the screen |
| `Counterexamples.TabOnEmptyLine` | student-distrib/keyboard.c:242-250 | A Tab on an empty line of a cleared screen makes echo and buffer disagree |
| `Counterexamples.KeyBeforeRead` | student-distrib/keyboard.c:247-262 | `a`, Enter, `s` and then the read deliver the line `s` |
| `Counterexamples.LongMatchingLine` | syscalls/ece391grep.c:28-57 | 1025 matching bytes without a newline are not reported as one line |
| `Counterexamples.ReadMinusOne` | student-distrib/filesystem.c:137-140 | A read of -1 bytes at position 1 of a file of 10 asks for 2^32 - 1 bytes |
| `Counterexamples.ListingRunsOn` | student-distrib/filesystem.c:117-123 | A directory with the one entry `.` opens, lists as two names and then fails |
| `Counterexamples.StrayArgument` | student-distrib/syscall.c:107-129 | `ls`, a NUL, a space and `x` in memory give the argument `x` |
| `Counterexamples.BufferAtFourMegabytes` | student-distrib/syscall.c:394-396 | In a booted machine, a terminal read into a buffer at 4 MiB returns and has changed a byte of the kernel's memory |
| `Counterexamples.NeverOnIsOn` | fish/blink.S:64-86 | An on-length of 0 is on at tick 0 |
| `Counterexamples.TwiceAtLocationZero` | fish/blink.S:122-162 | Two adds at location 0 to an empty list make a cycle |
| `Counterexamples.WordFillsBuffer` | syscalls/ece391emulate.c:139-148 | A word of 1024 bytes fills a buffer of 1024, so its NUL is written behind it |

## Left out

- DoOneFile: the file has no NUL byte and the byte behind the buffer is not a newline at the start, since it is read before it is ever written.
- TerminalRead: the wait for Enter is a precondition, and so is that the caller's buffer holds the line, since the count passed is clamped and then ignored.
- Memcpy: no claim when the destination begins inside the source.
- SessionDelivered: no key is pressed between Enter and the read; TypeAheadIff says what such keys do to the line.
- StepRefines: the stack pointer inside a system call is taken to be in the running process's 8 KiB, the machine to have booted (`BootEntersIff`), and a buffer passed to read or getargs to be outside the kernel's 4 MiB; CopyMeetsBlockIff says which control blocks such a buffer reaches.
- StepStaysOut: the same.
- RunStaysOut: the same.
- ResumedIntact: the same; the bytes of the control blocks themselves are not part of the modelled memory, so what a corrupted one does next is not followed.
- FileRead: a count whose end wraps around in 32 bits is excluded; WrappedReadFaults shows that such a read never returns.
- SysRead: the same.
- DirRead: an entry's type is below 2^24, so that a name of 32 bytes ends within the type behind it.
- ReadTick: the wait for the flag is a precondition; ReaderWaits says when it ends.
- `write`: it changes no modelled state but the screen (`Display.TerminalWrite`) and the clock (`Driver.WriteFreq`).
- Echo with program output between the keys: the line's start then moves, which the theorem does not follow.
- The glyphs `blink.S` pokes into video memory, in particular the one `sync` draws.
- Loading an ELF file beyond its magic number and entry point; user code itself is arbitrary stores, accesses and system calls, and the strings it passes are parameters.
- `grep`'s loop over the directory, `fish`'s main loop, and opening failures in `add_frames`.
- `i8259.c`, `idt.c` beyond the fact that the page-fault handler never returns, `x86_desc.*`, `boot.S` and the rest of `kernel.c`: port writes and tables.
- `handler_wrapper.S` and `iret`: entering and leaving the kernel are single steps.
- `pit.c` and `scheduling.c`: the scheduler is switched off in the source.
- `putc`, `puts` and the rest of `printf`; port I/O, the cursor registers, `cli` and `sti`.
- `fork`, `execv`, `mmap` and the directory emulation of `ece391emulate.c`.
- `set_handler`, `sigreturn`, `dir_write`, `file_write`, `rtc_close`: a constant or a constant failure.
- The short clients (`cat`, `shell`, `hello`, `counter`, `pingpong` and the like) and the rest of `ls`: straight-line uses of the calls modelled here.

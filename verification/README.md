# Verified model of the teaching kernel

This project models the parts of a small x86 kernel whose correctness depends on more than one
function, and proves what they keep over whole runs:

- **processes**: six process slots, three terminals with one stack of processes each, and a timer that
  rotates over the terminals (`Processes.dfy`, `ProcessRuns.dfy`); the kernel's redundant global tables
  (`KernelTables.dfy`) and the entry points that update them in place (`Kernel.dfy`); descriptor
  tables over whole runs (`Descriptors.dfy`), and what each call does, in plain numbers (`SystemCalls.dfy`);
- **terminals**: one video memory and three backing pages that behave as three independent screens
  (`Terminal.dfy`), and what a screen shows (`Screens.dfy`); the typed keys of each terminal and the
  reads that take them (`Keyboard.dfy`);
- **files**: the block file system against the flat file a reader observes (`FileSystem.dfy`), and the
  programs that stream it: grep (`TextLines.dfy`, `GrepReports.dfy`, `Grep.dfy`), cat (`Cat.dfy`) and fish's
  merge of two frames (`Frames.dfy`);
- **the blink list**: countdown timers (`Blink.dfy`) in a linked list over a static pool (`BlinkList.dfy`),
  and the frames of fish shown with it (`Fish.dfy`);
- **library routines**: memory moves (`Memory.dfy`) and number conversion (`Digits.dfy`).

Each imperative part is a class or a method over arrays and fields, proved against a pure step or
specification function; the run-level theorems are about those functions, and a `Drive` method in
`Kernel`, `Terminal`, `BlinkList` and `Keyboard` ties any run of the methods to a run of the model.

## How the pieces fit

`Processes.Step` says what execute, halt, a timer tick, open, close, read and a display switch do to a
`System`: a stack of processes per terminal, the running terminal, and the context parked by each
preempted terminal. `Processes.Invariant` is what every step keeps. `KernelTables.Represents` relates a
`System` to the kernel's tables: `current_PCB`, `current_pid`, `cnt_pid`, `cnt_program`, `pid_arr`, the
process blocks with their parent links, `terminal_pid`, `terminal_process_pids`, `esp_ebp_term`, the page
slot at 128 MB and `tss.esp0`. `Kernel.Kernel` carries out the source's statements on these tables and
proves that each entry point is one `Step`.

A register pair is an opaque `Context` tagged with the kernel stack it was saved on; `iret` and the
restoring assembly are the `Outcome` of an entry point.

`FileSystem.View` is the file as its readers see it: the stored bytes, except that the last byte always
reads as a newline, because read_data writes one there (student-distrib/file_system.c:119-122). The
comment above read_data promises -1 for an offset out of range; the code returns 0, and so does the model.

`Terminal.Display` is three screens, the terminal shown and the terminal whose process runs.
`Terminal.ScreenOf` finds a terminal's screen in video memory if it is shown and in its backing page
otherwise. `Screens.Layout` wraps a text into rows without mentioning a screen.

## Assumptions

- Entry points are atomic. The system-call gate is a trap gate and execute does not disable interrupts
  (student-distrib/idt.c:58-70), so an interrupt between two statements of an entry point is outside the
  model.
- The file system image is well formed (`FileSystem.WellFormed`): fewer than 63 inodes, names with a
  terminator within 32 bytes, file types 0 to 2, block numbers in range for the bytes within a file's
  length, and no length above 1023 blocks. The image holds an executable file called `shell`.
- A caller's buffer has room for what a call delivers.

## Properties that hold only under a condition

The code's exact condition is proved each time, and for most of them an input that fails:

- grep prints exactly the matching lines, whatever the pattern, if and only if no line is longer than 1024
  bytes without its newline and, should the byte after the buffer happen to start as a newline, the first
  full buffer without a newline at its end does not end inside a line (`GrepReports.ReportsLinesExactly`;
  `GrepReports.LongLineLost` and `GrepReports.StaleLineLost` are files with a lost line). `Grep.DoOneFile` says
  what is printed for every file without NUL bytes;
- memcpy copies every memory content if and only if the destination is not inside its source or one aligned
  dword is all there is to copy (`Memory.CopiesExactly`); `Memory.MemCpy` says what it leaves in every case;
- the typed keys arrive at every point of a run if and only if no read delivers a stray byte and no step
  mistreats a newline stored past 127 counted keys (`Keyboard.TypedKeysArriveThroughout`). Two such steps can
  cancel out by the end of a run, so the statement about its end alone (`Keyboard.TypedKeysArrive`) is for
  runs that mistreat none. `Keyboard.StrayByteDelivered` and `Keyboard.NewlineErased` are runs from boot that
  fail;
- a read with a complete line waiting delivers that line if and only if nbytes covers it without its newline
  (`Keyboard.ReadTakesLine`); it stores more than nbytes bytes in the caller's buffer if and only if
  nbytes - 1 keys without a line end are pending (`Keyboard.WritesPastBuffer`);
- an add keeps the blink list in order if and only if it does not accept location 0, which it refuses only
  when the pool is full (`BlinkList.BlinkList.Add`, `BlinkList.ZeroLocationLoops`). After any number of adds the
  list is in order if and only if each add at location 0 came when the nodes at the start and the earlier
  adds with a location from 1 to 1999 numbered 2000 (`BlinkList.AddsKeepOrder`): once broken, adds never mend it. So
  two frames leave the list in order if and only if each filled cell whose number wraps to 0 comes that late
  in row-major order (`Fish.FramesKeepList`). A single character in row 818, column 56 breaks the list
  (`Fish.FramesBreakList`); after a first line of 1960 characters and a second of 40 it does not
  (`Fish.FramesFillFirst`);
- backspace keeps the cursor on the screen if and only if it does not go up to a row that was left at the
  right edge (`Screens.BackspaceKeepsOk`), as after 80 characters (`Screens.BackspaceLeavesScreen`), and a
  backspace printed by a hidden terminal leaves the shown one alone if and only if the cursor is home on a row
  already cut (`Terminal.HiddenBackspace`);
- a read stops inside the typed keys if and only if it asks for fewer bytes than there are keys or a line end
  is among them (`Keyboard.StopsInsideExactly`);
- execute's file check passes files that start with the ELF magic number and, if its uninitialised buffer
  happens to start with it, empty files (`Processes.PassesExactly`).

## Model

| member | source | states |
|---|---|---|
| ProcessRuns.StepKeepsInvariant | student-distrib/syscall.c:175-616 | every execute, halt, tick, open, close, read and display switch keeps: one duplicate-free stack per started terminal, a base shell at its bottom, programs above it whose saved context lies on their parent's kernel stack, at most three programs, pid 0 at the bottom of terminal 0, descriptors 0 and 1 open, stopped terminals parked on their top process's stack |
| ProcessRuns.StartShellKeeps | student-distrib/syscall.c:438-616 | starting or restarting a base shell always finds a pid below 6, without the limit check mattering |
| ProcessRuns.RoundRobin | student-distrib/scheduler.c:116-141 | after any run, the running terminal has moved by the number of ticks in it, modulo 3 |
| ProcessRuns.CountersAgree | student-distrib/syscall.c:188-211 | the number of live pids is the number of processes and equals started base shells plus programs, at most 6; every live pid is below 6 and pid 0 is live |
| Processes.FreePidExists | student-distrib/syscall.c:309-315 | below the process limit, the free-pid search succeeds |
| ProcessRuns.PidsAreUnique | student-distrib/syscall.c:309-315 | no two processes anywhere share a pid |
| ProcessRuns.OthersUntouched | student-distrib/syscall.c:175-227 | no step changes any process but the running one: place, pid, saved context and descriptors stay |
| ProcessRuns.StoppedUntouched | student-distrib/scheduler.c:78-107 | a terminal that is not running keeps its stack and its parked registers |
| ProcessRuns.WhileStopped | student-distrib/scheduler.c:116-141 | over any run with too few ticks to come round to a stopped terminal, its stack and parked registers are unchanged |
| ProcessRuns.ContextSwitchSound | student-distrib/pit.c:27-40 | a preempted terminal is resumed, after any interleaving with one tick in it, with exactly the registers saved, on the preempted process's kernel stack, and with its processes unchanged |
| ProcessRuns.NeverResumesUnsaved | student-distrib/scheduler.c:78-141 | a tick resumes from registers saved on the top process's kernel stack, never from the initial ones; a terminal not started gets a base shell under a pid nobody has |
| ProcessRuns.BelowUntouched | student-distrib/syscall.c:309-397 | while a terminal's stack stays above a depth, everything below that depth, and the saved context of the program at it, stays as it was |
| ProcessRuns.ExecuteHaltBracket | student-distrib/syscall.c:178-227 | a program's halt resumes exactly the registers its execute saved, on its parent's kernel stack, with the terminal's stack as it was before, whatever happened meanwhile above it, on other terminals and at the timer |
| SystemCalls.ExecuteFailsExactly | student-distrib/syscall.c:243-245 | execute returns -1 and changes nothing exactly when six processes live, three programs run above base shells, or the file check fails |
| SystemCalls.PassesMeans | student-distrib/syscall.c:274-304 | the file check wants the bytes 7F 45 4C 46 at the front of the first scanned entry of that name, or, for an empty file, in the uninitialised buffer |
| SystemCalls.StartsExactly | student-distrib/syscall.c:188-193 | a process is started by an execute that does not fail, a base shell's halt and a tick to a terminal without processes, and by nothing else |
| SystemCalls.NewProcess | student-distrib/syscall.c:365-376 | whatever started it, the new process runs, has descriptors 0 and 1 open on the terminal and 2 to 7 free, and is alone on its terminal if a shell, on top of the stack that was there if a program |
| SystemCalls.OpenInstalls | student-distrib/syscall.c:41-63 | open of the first scanned entry of a name gives the descriptor the clock's, directory or file driver as the entry's type is 0, 1 or 2, with the entry's inode and position 0 |
| SystemCalls.CloseFrees | student-distrib/syscall.c:78-90 | close frees an open descriptor from 2 on and no other; for any other number it returns -1 and changes nothing |
| SystemCalls.ReadRefuses | student-distrib/syscall.c:103-112 | read returns -1 for a descriptor that is not open; on the clock and the terminal it returns what the device does and moves nothing |
| SystemCalls.ReadUntilEmpty | student-distrib/file_system.c:261-270 | a process that reads an open regular file from the start until a read of some bytes delivers none has been delivered the whole flat file, whatever ran in between |
| SystemCalls.OpenedFileDelivered | student-distrib/syscall.c:27-67 | open of a regular file's name followed by such reads of the descriptor it returned delivers that file |
| SystemCalls.DirectoryListsNames | student-distrib/file_system.c:323-342 | under any interleaving, the reads of an open directory deliver the entries' names in order, one a read, and nothing past the last |
| KernelTables.PlacesAreDisjoint | student-distrib/syscall.c:340-387 | distinct pids have disjoint 4 MB frames and disjoint 8 KB kernel blocks, and a process's initial stack pointer lies inside its own block, above its 288-byte control block |
| KernelTables.LaunchRecords | student-distrib/syscall.c:309-397 | the tables after a launch hold the stack with the new process on top, under the lowest free pid |
| KernelTables.PopRecords | student-distrib/syscall.c:188-209 | the tables after a halt hold the stack without its top process: its pid is free, the counters have moved with it, no other block is affected |
| KernelTables.HaltProgramRecords | student-distrib/syscall.c:195-216 | after a program's halt the tables are again those of a valid system with the parent current |
| KernelTables.HaltShellRecords | student-distrib/syscall.c:188-193 | after a base shell's halt the tables are those of a valid system with a new base shell on that terminal |
| KernelTables.TickResumeRecords | student-distrib/scheduler.c:92-126 | after a tick to a started terminal the tables are those of the system that terminal resumes in |
| KernelTables.TickStartRecords | student-distrib/scheduler.c:83-90 | after a tick to a terminal not started the tables are those of a valid system with a new base shell there |
| Kernel.Kernel.CurrentPcbAgrees | student-distrib/syscall.c:144-148 | in every valid state get_current_pcb() equals current_PCB; the page slot is 2 + pid and tss.esp0 is 8 MB - pid * 8 KB - 4 for that same pid; cnt_pid counts the live pids and is started shells plus cnt_program, at most 3 of them |
| Kernel.Kernel.ProcessRecorded | student-distrib/syscall.c:340-387 | in every valid state a live process's slot is taken and its block holds its pid, its parent's pid or -1, its open descriptors with driver, inode and position, and for a program the registers of the execute that started it |
| Kernel.Kernel.TerminalRecorded | student-distrib/scheduler.c:78-141 | and the terminal arrays say whether a terminal is started, its top process and the registers it was preempted with |
| Processes.PassesExactly | student-distrib/syscall.c:293-304 | the file check passes exactly files that start with the ELF magic number, and an empty file if the uninitialised header buffer starts with it |
| Kernel.Kernel.CheckExecutable | student-distrib/syscall.c:293-304 | the file check decides exactly that, whatever the uninitialised header buffer held |
| Kernel.Kernel.AllocatePid | student-distrib/syscall.c:309-315 | takes the lowest free slot of pid_arr and sets no other |
| Kernel.Kernel.BootShell | student-distrib/syscall.c:242-397 | the first execute, on the unbooted tables, establishes the valid state whose one process is base shell 0 on terminal 0, with descriptors 0 and 1 open on the terminal |
| Kernel.Kernel.Execute | student-distrib/syscall.c:242-397 | on a valid kernel, is one execute step and leaves a valid kernel, with the new process that NewProcess describes; at the limits or when the file check fails it returns -1 and changes nothing |
| Kernel.Kernel.CloseAll | student-distrib/syscall.c:182-185 | the closing loop frees descriptors 2 to 7 of the current block and leaves 0 and 1, and every other block, as they were |
| Kernel.Kernel.Halt | student-distrib/syscall.c:175-230 | on a valid kernel, is one halt step and leaves a valid kernel: it resumes the parent or restarts the base shell; a halted program's block is inactive, with descriptors 2 to 7 free |
| Kernel.Kernel.PitIrqHandler | student-distrib/pit.c:27-40 | on a valid kernel, is one tick step and leaves a valid kernel |
| Kernel.Kernel.Open | student-distrib/syscall.c:27-67 | on a valid kernel, is one open step, whose new descriptor OpenInstalls describes, and leaves a valid kernel |
| Kernel.Kernel.Close | student-distrib/syscall.c:78-90 | on a valid kernel, is one close step, as CloseFrees describes it, and leaves a valid kernel; the driver's own clearing of the descriptor hits the same process |
| Kernel.Kernel.Read | student-distrib/syscall.c:103-112 | on a valid kernel, is one read step, leaves a valid kernel, and writes exactly the delivered bytes to the buffer: the file's or directory's, or those its device driver hands over |
| Kernel.Kernel.SwitchDisplay | student-distrib/terminal.c:436-456 | a display switch changes no process table |
| Kernel.Kernel.DirectoryRead | student-distrib/file_system.c:323-342 | delivers the next entry's name and moves on by one entry, or nothing past the last |
| Kernel.Drive | student-distrib/syscall.c:27-616 | any interleaving of these entry points on a valid kernel is a run of the process system |
| Descriptors.OpenFailsExactly | student-distrib/syscall.c:27-67 | open returns -1 exactly when the name is empty or carried by no scanned entry, or descriptors 2 to 7 are all in use; then nothing changes |
| Descriptors.OpenTakesLowest | student-distrib/syscall.c:41-63 | otherwise open returns the lowest free descriptor from 2 on, at position 0, and leaves the others alone |
| Descriptors.StandardDescriptorsOpen | student-distrib/syscall.c:365-376 | descriptors 0 and 1 of every live process are open on the terminal, and no other descriptor is |
| Descriptors.StreamIsFile | student-distrib/file_system.c:261-270 | over any interleaving in which a process keeps a regular file open, the bytes delivered to that descriptor are the file's own bytes in order from where it stood, and its position has moved by exactly their number and never passes the length |
| Descriptors.StreamIsReads | student-distrib/file_system.c:261-270 | under any interleaving those bytes are what reads of the same sizes deliver to a reader that has the file to itself |
| Descriptors.StreamDeliversFile | student-distrib/file_system.c:261-270 | so a program that reads from the start until a read of positive size delivers nothing has been delivered the whole flat file, whatever ran in between |
| FileSystem.ReadData | student-distrib/file_system.c:88-132 | delivers min(n, length - offset) bytes, or none past the end, writes exactly that slice of the flat file and nothing else; every block index is in range |
| FileSystem.View | student-distrib/file_system.c:113-122 | the flat file has the file's length and ends in a newline unless empty |
| FileSystem.ViewAt | student-distrib/file_system.c:98-122 | byte p of the flat file is byte p % 4096 of the file's block number p / 4096, and a newline if it is the last |
| FileSystem.Descriptor.Read | student-distrib/file_system.c:261-270 | one read delivers the slice at the position and advances it by the count |
| FileSystem.ReadsAreChunkIndependent | student-distrib/file_system.c:261-270 | successive reads of any sizes concatenate to one slice of the flat file that depends only on their total size |
| FileSystem.ReadsUntilEmptyDeliverAll | student-distrib/file_system.c:261-270 | reads from the start until one of positive size delivers nothing have delivered the whole flat file |
| FileSystem.StrNCmp | student-distrib/lib.c:440-454 | zero exactly when the two C strings agree in their first n bytes |
| FileSystem.LookupFindsNames | student-distrib/file_system.c:41-46 | the lookup result is the first scanned entry of that name, with a known type and a real inode, and there is none exactly when no scanned entry has the name |
| FileSystem.ReadDentryByName | student-distrib/file_system.c:32-49 | the scan returns that entry |
| Cat.Copy | syscalls/ece391cat.c:21-28 | the loop terminates having written the whole flat file |
| TextLines.LinesUnlines | syscalls/ece391grep.c:30-32 | the lines of a file that ends in a newline are that file, cut at its newlines |
| TextLines.UnlinesLines | syscalls/ece391grep.c:30-32 | putting newlines after any lines without one gives a file with exactly those lines |
| TextLines.SegmentsAreLines | syscalls/ece391grep.c:29-57 | the pieces a 1024-byte reader sees are the lines exactly when each line with its newline fits |
| TextLines.SegmentsMean | syscalls/ece391grep.c:29-57 | a piece is a line of fewer than 1024 bytes, or the next 1024 bytes of a longer one |
| Grep.StrNCmp | syscalls/ece391support.c:35-46 | zero exactly when the C strings agree in their first n bytes |
| Grep.StrCpy | syscalls/ece391support.c:14-17 | moves the string with its terminator down to the front of the same buffer and changes nothing after it |
| Grep.Search | syscalls/ece391grep.c:42-51 | found exactly when the pattern occurs in the line; never for an empty pattern |
| Grep.SearchBuffer | syscalls/ece391grep.c:28-57 | one pass over the buffer prints the matching pieces it completes and leaves exactly the incomplete one at its front |
| Grep.Round | syscalls/ece391grep.c:21-59 | one read and one pass: what was printed and what is still to be printed add up to the same report |
| Grep.DoOneFile | syscalls/ece391grep.c:10-66 | terminates; prints, once and in order, exactly the pieces of the file that contain the pattern, wherever the chunks fall, which are the matching lines when nothing is cut; a failed open prints the message and returns -1 |
| GrepReports.ReportGrows | syscalls/ece391grep.c:42-51 | a report prints each line that holds the pattern, if the pattern is not empty, as the file's name, a colon, the line and a newline, in order, and nothing else |
| GrepReports.WholeLinesReported | syscalls/ece391grep.c:20-60 | with nothing cut, the report of those pieces is the report of the file's lines |
| GrepReports.ReportsLinesExactly | syscalls/ece391grep.c:20-60 | the two reports agree for every pattern if and only if every line is at most 1024 bytes without its newline and a stale newline after the buffer cuts no line |
| GrepReports.LongLineLost | syscalls/ece391grep.c:29-57 | a file of one line of 1025 bytes whose match is not printed |
| GrepReports.StaleLineLost | syscalls/ece391grep.c:29-57 | a file of short lines one of which is not printed if the byte after the buffer starts as a newline |
| Frames.FrameAddsExactly | fish/fish.c:118-128 | an add is requested exactly for the cells where one of the frames has a non-space character, with both characters and location row * 80 + col + 40 |
| Frames.FromCellMeans | fish/fish.c:122-126 | a cell's add has location row * 80 + column + 40 in 16 bits and the characters of the two frames, spaces where one does not reach, and only if one of them is no space |
| Frames.Row | fish/fish.c:99-130 | one row of both streams issues that row's adds and leaves each stream at its next line |
| Frames.Merge | fish/fish.c:98-147 | the loop terminates and issues the adds of both frames in row-major order, the shorter line or file padded with spaces |
| Frames.AddFrames | fish/fish.c:78-148 | with both files open, the same; a failed open halts without adds |
| Fish.WantedRefused | fish/fish.c:122-127 | the adds of two frames at location 0 all come when the nodes at the start and the usable adds before them number 2000 if and only if that holds of every filled cell whose number wraps to 0, the cells before it counted in row-major order |
| Fish.FramesKeepList | fish/fish.c:98-147 | after the adds of any two frames to a list in order, the pool holds a list from its head if and only if each filled cell whose number wraps to 0 comes that late |
| Fish.CellStands | fish/fish.c:122-126 | the node and the display of such a cell at the end of the adds, and k ticks later |
| Fish.FramesBreakList | fish/fish.c:122-127 | one character in row 818, column 56 of an otherwise blank frame, beside an empty one, leaves an empty list's pool without a list |
| Fish.FramesFillFirst | fish/fish.c:122-127 | the same character after a first line of 1960 and a second of 40 characters meets a full pool and leaves a list |
| Fish.ShowFrames | fish/fish.c:78-148 | with both files open, whatever the frames, pool and head are those that the frames' adds make in turn; they hold a list under exactly that condition, and then it is the run of those adds on the timed list. Then each filled cell with a location from 1 to 1999 to itself, free before and with room in the pool, has a node with frame 0's character as on, frame 1's as off character and both lengths 15; it shows frame 0's character, and k ticks later still if and only if k % 30 < 15 |
| Blink.BlinksOnSchedule | fish/blink.S:60-90 | k ticks after an add a node is on exactly when k modulo its period is less than its on length, for every pair of lengths, with lengths outside 1..32768 acting as 1 |
| Blink.RunNodeAt | fish/blink.S:49-99 | the node found at a location after any run that leaves that location alone is the one it started with, as many ticks on as the run has |
| Blink.SyncKeepsInStep | fish/blink.S:267-275 | after a sync the two nodes have equal status and countdown over every later run that leaves both locations alone |
| Blink.SyncKeepsCharacters | fish/blink.S:267-298 | a sync leaves the target its location and characters, gives it the source's lengths, countdown and status, draws its off character, and touches no other node or cell |
| Blink.FailsExactly | fish/blink.S:105-298 | add fails exactly off the screen or on a list of 2000, remove and sync exactly when a location named holds no node; a failed call changes nothing |
| Blink.AddPutsInFront | fish/blink.S:131-184 | an add puts a node in front, on and with its on length to count down, and draws its on character and nothing else |
| Blink.RemoveTakesNewest | fish/blink.S:187-237 | remove takes out the node most recently added at the location, and draws nothing |
| Blink.CellFollowsSchedule | fish/blink.S:64-86 | the cell of a character added where none was, and left alone since, shows its on character exactly during the on part of its period and its off character otherwise |
| BlinkList.ListIsUnique | fish/blink.S:351-379 | the list a head pointer denotes is determined by the pointers |
| BlinkList.FullMeans | fish/fish.c:160-170 | the search for a free slot fails exactly when the list holds 2000 nodes |
| BlinkList.ZeroLocationLoops | fish/blink.S:131-162 | after an add at location 0 the next add takes the same slot and links it to itself, so no walk ends |
| BlinkList.BlinkList.Malloc | fish/fish.c:160-170 | the first slot whose location is 0, or NULL |
| BlinkList.BlinkList.FindHelper | fish/blink.S:351-379 | the first, so most recently added, node at a location, or NULL; the walk terminates |
| BlinkList.AddsKeepOrder | fish/blink.S:105-184 | after any adds to a list in order the pool holds an acyclic list of exactly the slots in use if and only if each add at location 0 came when the list at the start and the adds before it at 1 to 1999 numbered 2000 |
| BlinkList.BlinkList.constructor | fish/fish.c:28 | the zeroed pool with a NULL head holds the empty list |
| BlinkList.BlinkList.Add | fish/blink.S:105-184 | on any pool, links a fresh node in the first free slot at the front and draws it, or returns -1 and changes nothing; a list in order stays so if and only if location 0 is not accepted |
| BlinkList.BlinkList.Remove | fish/blink.S:187-237 | deletes the most recently added node at the location, or returns -1 and changes nothing; slots in use and list still agree |
| BlinkList.BlinkList.Sync | fish/blink.S:240-298 | copies lengths, countdown and status from one node to the other and draws, or returns -1 and changes nothing |
| BlinkList.BlinkList.RtcTasklet | fish/blink.S:49-99 | ticks every node once, in list order, and draws those that toggle; the walk terminates |
| BlinkList.Drive | fish/blink.S:101-298 | any run of these operations in which no add at location 0 is accepted is a run of the timed list and keeps pool and list in agreement |
| Screens.LayoutAppend | student-distrib/terminal.c:284-306 | laying out one more character extends the layout of the text before it |
| Screens.LayoutRowsFit | student-distrib/terminal.c:299-304 | every row of a layout fits 80 columns and the last has room |
| Screens.LayoutGrows | student-distrib/terminal.c:284-304 | the layout character by character: a line end or the 80th column starts a new row, a tab is five spaces cut at the edge, anything else stands for itself |
| Screens.PrintMoves | student-distrib/terminal.c:284-323 | the cursor moves one column, five for a tab, and to the next row at a line end or column 80; the bottom row scrolls |
| Screens.CellShown | student-distrib/terminal.c:293-297 | a screen that shows some rows holds their characters at even bytes and the attribute 7B at odd ones, with spaces everywhere else |
| Screens.PrintShows | student-distrib/terminal.c:263-372 | printing a character onto a screen that shows some rows makes it show those rows extended by it, scrolled if need be |
| Screens.ClearedScreenShowsLayout | student-distrib/terminal.c:221-231 | after a clear and any text without backspaces, the screen is exactly the last 25 rows of the text's layout, blank-padded, with the cursor in bounds at its end |
| Screens.BackspaceKeepsOk | student-distrib/terminal.c:240-254 | backspace keeps the cursor on the screen exactly unless it goes up to a row left at the right edge |
| Screens.BackspaceLeavesScreen | student-distrib/terminal.c:240-254 | on a cleared screen, 80 characters and a backspace leave the cursor at column 80 |
| Screens.BackspaceIdleExactly | student-distrib/terminal.c:240-254 | backspace changes nothing exactly at home on a row already cut |
| Screens.BackspaceUndoesPrint | student-distrib/terminal.c:240-254 | backspace after an ordinary character that did not fill its row restores the cursor and blanks the cell |
| Screens.BackspaceRestores | student-distrib/terminal.c:240-254 | a screen that shows some rows shows them again after an ordinary character that did not fill its row and a backspace |
| Screens.BackspaceUndoesLineEnd | student-distrib/terminal.c:240-254 | backspace after a line end puts the cursor back where the row was left, one row up if the screen has scrolled |
| Terminal.ScreensAreIndependent | student-distrib/terminal.c:263-372 | over any interleaving of printing (backspaces included), typed backspaces, clears, display switches and scheduling, a terminal's screen is its old screen with exactly the characters printed on that terminal, unless a clear or a backspace met it on the display |
| Terminal.TerminalShowsItsText | student-distrib/terminal.c:221-323 | a terminal cleared while shown then shows the last 25 rows of the layout of what was printed on it, wherever it was shown meanwhile, unless a clear or a backspace met it on the display |
| Terminal.ShownIsLastAsked | student-distrib/terminal.c:436-456 | after any run, the terminal shown is the one the last switch to 0, 1 or 2 asked for, or the first one |
| Terminal.RunsLastScheduled | student-distrib/scheduler.c:116-141 | and the terminal that prints is the one scheduled last |
| Terminal.LiveBackspace | student-distrib/terminal.c:291-310 | a backspace printed by the terminal shown blanks the cell before the cursor and leaves the cursor where it was |
| Terminal.HiddenBackspace | student-distrib/terminal.c:291-310 | whatever the shown screen, a backspace printed by a hidden terminal changes no other; it changes nothing exactly if the shown cursor is home on a row already cut, and takes that cursor off the screen exactly if it goes up to a row left at the right edge |
| Terminal.EraseUndoesPrint | student-distrib/keyboard.c:181-191 | the keyboard handler's backspace takes back an ordinary character just printed at the terminal that runs and is shown, leaving its cell blank, unless the character filled its row |
| Terminal.Terminal.constructor | student-distrib/terminal.c:32-49 | over video memory of any contents, three screens with the cursor at home and row lengths 0, the first of them shown and running |
| Terminal.WriteIsPrinted | student-distrib/terminal.c:96-120 | a write without backspaces changes the running terminal's screen, by the whole text, and no other |
| Terminal.Terminal.ScrollRows | student-distrib/terminal.c:349-354 | every row and row length moves up by one, in place; nothing else of video memory changes |
| Terminal.Terminal.Scroll | student-distrib/terminal.c:331-372 | the running terminal's screen is scrolled by one row with a blank bottom row, and no other screen changes |
| Terminal.Terminal.Backspace | student-distrib/terminal.c:240-254 | is one erase step on the screen shown and on no other, whatever runs; the cursor stays on the screen exactly unless it goes up to a row left at the right edge |
| Terminal.Terminal.PrintChar | student-distrib/terminal.c:263-323 | prints on the running terminal's screen and on no other; a backspace erases on the screen shown and then puts the running terminal's cursor back, and keeps the state in order exactly if that leaves the shown cursor on the screen |
| Terminal.Terminal.TerminalWrite | student-distrib/terminal.c:96-120 | is the run that prints the bytes one after the other, as long as no backspace takes the shown cursor off the screen; any descriptor but 1 is refused |
| Terminal.Terminal.ClearTerminal | student-distrib/terminal.c:221-231 | clears the screen shown and no other |
| Terminal.Terminal.SwitchTerminal | student-distrib/terminal.c:436-458 | shows the terminal asked for, if there is one: video memory gets its backing page and its saved cursor becomes live, the old screen goes to its own page, and no terminal's screen changes; x_positions is the row-length array of the terminal shown |
| Terminal.Drive | student-distrib/terminal.c:221-458 | any run of these operations in which no backspace takes the shown cursor off the screen is a run of three screens |
| Keyboard.Keyboard.AppendKey | student-distrib/keyboard.c:313-330 | the new state of the buffer; returns 0 exactly for a key other than newline on a full buffer |
| Keyboard.AppendKeeps | student-distrib/keyboard.c:313-330 | a key joins the end of the pending keys while fewer than 127 are pending, and otherwise changes none of them |
| Keyboard.Keyboard.RemoveKey | student-distrib/keyboard.c:338-347 | the new state of the buffer; returns the last key, or 0 |
| Keyboard.RemoveTakesLast | student-distrib/keyboard.c:338-347 | the last pending key goes; none is left alone |
| Keyboard.RemoveUndoesAppend | student-distrib/keyboard.c:313-347 | a backspace takes back the key typed before it |
| Keyboard.Keyboard.Clear | student-distrib/keyboard.c:254-259 | control-L drops the pending keys of the terminal shown and of no other |
| Keyboard.Keyboard.SetKbBufCount | student-distrib/keyboard.c:375-387 | the shift in place leaves the latest n keys; other terminals' buffers are untouched |
| Keyboard.DropKeepsLatest | student-distrib/keyboard.c:375-387 | what is pending afterwards is the latest n of the pending keys |
| Keyboard.Keyboard.SetKbBuffer | student-distrib/keyboard.c:394-406 | saves the shown terminal's count as an unsigned word that reads back unchanged, brings in the other's buffer and count, cut to 128; an index outside 0..2 changes nothing |
| Keyboard.Keyboard.ShowTerminal | student-distrib/keyboard.c:125-140 | set_kb_buffer followed by the switch leaves the pending keys of every terminal as they were |
| Keyboard.ShownIsLastAsked | student-distrib/keyboard.c:125-140 | after any run, keys go to the terminal shown last |
| Keyboard.RunsLastScheduled | student-distrib/scheduler.c:116-141 | and reads come from the terminal scheduled last |
| Keyboard.ReadersRun | student-distrib/terminal.c:147-165 | a read delivers bytes to the terminal that runs, only if that one is shown and has keys, and then it delivers some; a read while another is shown changes nothing |
| Keyboard.HiddenReadWaits | student-distrib/terminal.c:147 | after any run, a read made while the terminal that runs is not shown takes no terminal's keys and delivers nothing |
| Keyboard.Keyboard.TerminalRead | student-distrib/terminal.c:130-165 | is answered if and only if keys are pending and the terminal shown is the one that runs; then it copies out the keys up to the stop and one byte more, then a NUL and nothing else, and drops what it delivered |
| Keyboard.WritesPastBuffer | student-distrib/terminal.c:148-163 | the bytes stored in the caller's buffer exceed nbytes if and only if nbytes - 1 keys without a line end are pending |
| Keyboard.StopsInsideExactly | student-distrib/terminal.c:148-156 | a read stops inside the pending keys exactly when it asks for fewer bytes than there are or a line end is among them; it reaches a newline stored past 127 of them exactly when it asks for as many and there is none |
| Keyboard.ReadSplits | student-distrib/terminal.c:142-165 | delivered and remaining keys are the pending keys if and only if the read stops inside them; otherwise one stray byte is delivered too |
| Keyboard.ReadTakesWaiting | student-distrib/terminal.c:142-165 | the same for the pending keys with a newline stored past 127 of them: it is delivered by a read that takes them all, and lost by one that stops inside them |
| Keyboard.ReadTakesLine | student-distrib/terminal.c:142-165 | with a complete line waiting, the read delivers that line and leaves the rest if and only if nbytes covers the line without its newline |
| Keyboard.FullLineEnds | student-distrib/keyboard.c:315-321 | a newline typed after 127 other keys ends the line that a long enough read delivers |
| Keyboard.TypedKeysArrive | student-distrib/terminal.c:130-165 | over every run that mistreats no newline stored past 127 keys, what was delivered at a terminal followed by what waits there is the text of accepted keys after backspace edits, if and only if no read there delivered a stray byte |
| Keyboard.TypedKeysArriveThroughout | student-distrib/terminal.c:130-165 | over every run, that holds at each of its points if and only if no read delivers a stray byte and no step mistreats such a newline |
| Keyboard.StrayByteDelivered | student-distrib/terminal.c:148-163 | from boot, one key and a read of more bytes deliver the key and a NUL nobody typed |
| Keyboard.NewlineErased | student-distrib/keyboard.c:313-347 | from boot, 127 keys, a newline and a backspace lose the last key as well as the newline |
| Keyboard.Keyboard.Drive | student-distrib/keyboard.c:313-406 | any run of these operations is a run of the model and delivers what the model delivers |
| Memory.MemMove | student-distrib/lib.c:409-433 | the old source bytes are at the destination for every overlap and either direction; nothing else changes |
| Memory.MemCpy | student-distrib/lib.c:363-394 | for every address, length and overlap leaves the memory that its stores make, dwords read whole; that is the old source at the destination whenever the condition of CopiesExactly holds |
| Memory.MemSet | student-distrib/lib.c:280-314 | the align, dword and tail split sets every byte of the range to the low byte and touches nothing else |
| Memory.CopiesExactly | student-distrib/lib.c:363-394 | those stores copy every memory content if and only if the destination is not inside its source or one aligned dword is all there is to copy |
| Memory.CopiedRepeats | student-distrib/lib.c:363-394 | onto a destination inside its source, four bytes or more above its start, they leave the first bytes of the source over and over |
| Digits.ParseMeans | student-distrib/lib.c:213-241 | 0 to 9 and A to Z count 0 to 35, and a digit further to the left counts radix times as much |
| Digits.NumeralDenotes | student-distrib/lib.c:212-241 | parsing a number's numeral gives the number back; all its characters are digits of the radix and it has no leading zero except for 0 itself |
| Digits.NumeralIsUnique | student-distrib/lib.c:212-241 | every such numeral is the numeral of the number it denotes |
| Digits.StrRev | student-distrib/lib.c:248-261 | the C string is reversed in place and nothing else changes |
| Digits.Itoa | student-distrib/lib.c:212-241 | for every 32-bit value and radix 2 to 36, leaves the numeral and its terminator at the buffer and nothing else |
| Digits.PrintAlternateHex | student-distrib/lib.c:92-108 | the string printed for %#x is exactly eight hexadecimal digits denoting the value |

## Left out

- Port I/O, the interrupt controller, the clocks and the hardware cursor, descriptor-table setup, boot: hardware plumbing.
- Interrupts inside an entry point: entry points are atomic, as said under Assumptions.
- User video mapping (vidmap, remap_vidmap): it is not redone on a display switch, so it has no all-states invariant to prove.
- An image whose `shell` file is missing or not executable: the scheduler would then go on with a terminal that has no process.
- Command-line splitting, getargs, loading the program image and user memory: a command is its file name.
- The `typing_flags` array: it only suppresses keys while some programs run.
- write through descriptor tables, and what a device (terminal, RTC) delivers to a read: the value and the bytes are given to the call.
- terminal_read's waiting loop: `TerminalRead` ends where the source starts to wait.
- Command history, tab completion and scancode decoding: interactive convenience.
- switch_process, dir_read, mp1_ioctl_find, signals, the emulators and the other user programs: not called by the modelled parts, or easy.
- NULL pointer arguments.
- Arrays of the kernel that hold a few words (`pid_arr`, `terminal_process_pids`, the process blocks) are fields of sequence type: updating one element in place is a reassignment, and aliasing between process blocks is not captured, except for get_current_pcb, which finds its block by address.
- The direction flag that memmove leaves set is not part of the memory it moves.
- Grep.DoOneFile: does not cover files that contain NUL bytes, because the program prints and compares C strings; a read or close of an open regular file does not fail.
- Terminal.Drive: does not go on after a backspace that takes the shown cursor off the screen, because the source then writes outside the row; Terminal.Terminal.PrintChar says exactly when that is.
- Terminal.Terminal.TerminalWrite: is stated for texts without such a backspace, for the same reason.
- Screens.ClearedScreenShowsLayout: does not cover backspaces, which are not part of a text's layout.
- Kernel.Kernel.Execute: takes the file name, as splitting the command line is left out.
- BlinkList.Drive: does not go on after an add at location 0 is accepted, which breaks the list, so that a tick would not end; what further adds do to it is stated by BlinkList.BlinkList.Add and BlinkList.AddsKeepOrder.
- Terminal.Terminal.constructor: terminal_init clears 25 bytes of each array of row lengths, not its 100; they are 0 because static storage is, so the model does not cover a second call.
- Blink.CellFollowsSchedule: does not cover a location held by two nodes, whose cell shows the last of them drawn.
- BlinkList.BlinkList.Sync: the character drawn is always the off character, since the conditional move tests the wrong flag; the model draws that one.
- FileSystem.Descriptor.Read: does not cover the wrap-around of positions, because a position never passes the length.

# A verified model of a small x86 kernel and its user programs

The repository is a teaching kernel with a handful of user programs. This project models the parts
of it that carry real arguments, in Dafny, and proves what they are for:

| file | component |
|---|---|
| `Scheduler.dfy` | the round-robin choice of each timer tick, and its fairness |
| `Processes.dfy`, `Kernel.dfy` | pids, execute, halt, root shells and ticks as one transition system; the kernel tables updated in place |
| `RootRestart.dfy` | the halt and restart of a root shell, with everything that can run in between |
| `TermScreen.dfy` | the scrolling 80x25 screen, against an ever-growing tape of text |
| `TermInput.dfy` | the line-editing input buffer and the reads that drain it, against a ledger |
| `Terminals.dfy`, `Termios.dfy` | four terminals over one video memory; the driver itself |
| `Console.dfy` | the kernel's own console, compared with the terminal driver |
| `FileSystem.dfy`, `Grep.dfy` | block-mapped files, `cat`, and the chunked line searcher `grep` |
| `CatOnTerminal.dfy` | `cat` from the blocks of a file to the cells of a screen |
| `Blink.dfy`, `BlinkList.dfy` | the blinking characters of `fish`: an intrusive list in a static pool |
| `Paging.dfy`, `PageTables.dfy` | page directories and the two-level page walk |
| `AddressSpaces.dfy` | processes and paging together |
| `Numbers.dfy` | `itoa`, `strrev` and the number cases of `printf` |
| `Command.dfy` | command lines, their arguments and `getargs` |
| `Pcb.dfy` | the address arithmetic of process control blocks and kernel stacks |
| `Sequences.dfy`, `Bytes.dfy`, `Arithmetic.dfy` | shared helpers |

Code that works in place is modelled in place (arrays, fields, loops) and each method is tied to a
function on values; the theorems about whole runs are lemmas about those functions. Files and
memory, the loader's verdict, key presses and the order of interrupts are parameters. Stores outside
a buffer are not given a meaning: the functions on values answer `None` or `Overrun` for them, the
methods stop there and say so in a result `ok`, and the lemmas say exactly when that happens.

Where code and comments disagree the code is followed: `MAX_PID` is called an inclusive maximum but
is used as an exclusive one (kernel/tasks.h:8-9); `terminal_read` says it updates the reader's buffer
but shifts into the active terminal's (drivers/termios.c:149-153).

Properties that turn out not to hold of the code everywhere, with the exact condition proved:

- a root shell frees its pid, enables interrupts and only then asks for a new one, and other root
  shells may halt meanwhile. Over all runs from boot the process tables are in order exactly when every
  scheduled pid is live (`ReachedIff`). For one restart, whatever runs before the new shell asks and
  before it commits, they are in order afterwards exactly when, at the moment it asks, its old pid is
  free and every lower one is in use, and, at the commit, every other scheduled pid is live
  (`RestartIff`); with no other root shell down the second half holds by itself (`RestartAloneIff`).
  Guarded runs from boot end otherwise, without an interruption (`RestartRootCanFail`), with another
  process given the pid meanwhile (`RestartRace`) and with two shells halting at once (`TwoHalts`). A
  process committed to the pid of a halted shell takes its place; the restart is lost, and the pids it
  had been allocated are never freed again (`LostRestart`, `LeakedForever`);
- a stream of keys keeps the terminal's stores on the screen exactly as long as the tape says so:
  no backspace at the origin, no delete in the last cell (`StreamShowsTape`);
- a read by a background process does no harm, whatever the active terminal holds, exactly when it
  drains its own buffer, so that the copy loop has nothing to copy (`InactiveReadExact`); two lines
  typed from boot, a switch and a read make the reader keep the line it has read
  (`BackgroundReadRepeats`). The theorems on runs allow all harmless reads;
- adding a blinking character keeps the list and the pool in agreement exactly when its location is
  not zero or the pool is full (`AddTidyIff`, `AddZeroTwice`);
- the two screen writers agree on a byte exactly when it is one of the common ones, and on a
  scrolling newline exactly when every surviving cell has attribute 7, or 0xFF for characters from 128
  on, which the terminal driver sign-extends (`AgreeIffCommon`, `NewlineAgrees`);
- a command can be put together again from name and arguments exactly when it has a space with at
  most 31 bytes before and 127 after it (`RecoverableIff`); its arguments reach the child exactly when
  there are at most 31 bytes before the space, at most 99 after it, since the field in the PCB holds
  no more, and the child asks for more than there are (`ArgsArriveIff`, `GetArgsFitsIff`);
- a command without a space is given leftover bytes of the argument buffer (`StaleArguments`);
- an update of a video page leads to the address it is given exactly when that lies below 4 MB, since
  only ten bits of the frame number are kept; the buffer of a background terminal, in the kernel's
  memory above that, is missed (`UpdateReachesIff`);
- the is_active flags are right exactly as long as no terminal is opened in the background (`LitIff`);
- a key typed inside a line is taken back by backspace exactly when the rest of the line is one
  character repeated (`BackspaceUndoesIff`);
- allocating a directory opens kernel memory to user code exactly for pid 0 (`AllocateExposesKernel`);
- blink lengths that the signed 16-bit countdown cannot hold last one tick; 32768 still works (`OnIff`);
- `grep` searches the lines of a file exactly when all of them fit its 1024-byte buffer, and cuts
  longer ones there (`CutsAreLinesIff`); a newline left by chance in the buffer's extra cell does no
  harm exactly when the first full buffer not ending in a newline would have been cut there anyway
  (`StaleIff`); the empty pattern is never found.

## Model

| member | source | states |
|---|---|---|
| Scheduler.NextIsNext | student-distrib/kernel/scheduling.c:87-100 | whenever something is ready, the tick's choice is the one ready pid that is nearest cyclically after the current one, the current one coming last |
| Scheduler.TickApproaches | student-distrib/kernel/scheduling.c:88-100 | a tick that does not choose a waiting ready pid strictly reduces the cyclic distance to it |
| Scheduler.FullTurn | student-distrib/kernel/scheduling.c:88-100 | one turn upward from any pid meets every ready pid once and nothing else |
| Scheduler.TicksCycle | student-distrib/kernel/scheduling.c:70-100 | with the ready set fixed, the ticks walk round one fixed turn list for ever |
| Scheduler.EachOncePerRound | student-distrib/kernel/scheduling.c:70-100 | any k consecutive ticks, k ready pids, run each ready pid exactly once |
| Scheduler.PickNext | student-distrib/kernel/scheduling.c:77-100 | the two search loops terminate, return early exactly when nothing is ready, and otherwise find the nearest ready pid |
| Processes.LowestFree | student-distrib/kernel/tasks.c:41-64 | the pid handed out is free and every lower one is taken; none is handed out only when all are taken |
| Processes.StepKeeps | student-distrib/kernel/syscall.c:28-377 | every event takes tables that represent a set of process chains to tables that represent the chains after it: execute pushes, halt pops, a shell start adds a chain |
| Processes.RepresentsSafe | student-distrib/kernel/syscall.c:28-377 | chains imply safety: scheduled pids are in use, the running one is scheduled, a live process is scheduled exactly when it has no live child, parents are live and on the same terminal, and no process is its own ancestor |
| Processes.ReachableSafe | student-distrib/kernel/syscall.c:28-377 | every state reachable from boot under every interleaving of allocations, commits, aborts, halts, shell starts and ticks is safe |
| Processes.HaltResumesLive | student-distrib/kernel/syscall.c:37-98 | a halt hands the processor to a live, suspended process of the same terminal, and the halted pid is no longer live |
| Processes.ExecuteWaits | student-distrib/kernel/syscall.c:101-237 | execute does not return before its program is done: from the commit on, no run gets back to the parent without a halt of the child in it |
| Processes.ChildStays | student-distrib/kernel/syscall.c:28-377 | a live process keeps its pid and its parent through every event but its own halt |
| Processes.AncestorInChain | student-distrib/kernel/syscall.c:186-193 | following parent pointers n times from a process is going n places down its chain, and off its end at the root |
| Processes.InUseCount | student-distrib/kernel/tasks.c:41-81 | pids in use are the chain lengths added up plus the allocations in flight |
| Processes.ReadyCount | student-distrib/kernel/syscall.c:65-68 | as many pids are scheduled as there are chains |
| Processes.GuardedReachable | student-distrib/drivers/keyboard.c:230-274 | when shells start only at boot and behind the shell_active check, every terminal has one chain from one root shell to one scheduled leaf, so scheduled pids equal root shells, at most four, and pids in use equal chain lengths plus allocations in flight |
| RootRestart.AfterHaunted | student-distrib/kernel/syscall.c:40-53 | every event and every halt of a root shell keeps the tables in order but for the root shells that have halted and not come back under their pids, which are scheduled and not live |
| RootRestart.ReachedIff | student-distrib/kernel/syscall.c:40-53 | over every run from boot, root halts included, the tables represent chains if and only if every scheduled pid is live |
| RootRestart.RestartIff | student-distrib/kernel/syscall.c:40-53 | over every run between the free and the allocation, and every run between the allocation and the commit, other root shells halting and restarting included: once the new shell commits, the tables represent chains if and only if at the allocation the freed pid was free and every lower one in use, and at the commit every other scheduled pid was live |
| RootRestart.RestartAloneIff | student-distrib/kernel/syscall.c:40-53 | if no other root shell is down or halts meanwhile, the condition at the allocation alone decides |
| RootRestart.LostRestart | student-distrib/kernel/syscall.c:40-53 | whoever is committed to the pid of a halted shell, at any time and by any process, a keyboard shell nested in the halted one included: the pid is live again, the tables represent chains if no other shell is down, and every pid the halted shell had been allocated is left to nobody |
| RootRestart.LeakedForever | student-distrib/kernel/syscall.c:40-53 | a pid left to nobody stays in use and is never live, over every later run |
| RootRestart.RestartRootSafe | student-distrib/kernel/syscall.c:40-53 | without interruption the new shell always gets a pid, the state is safe if and only if every lower pid was in use, and then the tables are unchanged |
| RootRestart.RestartRootCanFail | student-distrib/kernel/syscall.c:40-53 | a guarded run from boot ends in a root halt whose uninterrupted restart is not safe |
| RootRestart.RestartRace | student-distrib/kernel/syscall.c:43-50 | a guarded run from boot ends in a root halt that would have been safe uninterrupted, but whose pid another process is given after the interrupts are enabled: the tables represent no chains once the new shell commits, and a later abort leaves a free pid scheduled |
| RootRestart.TwoHalts | student-distrib/kernel/syscall.c:43-50 | a guarded run from boot and a second root halt before the first shell asks: it regains its pid, and once it commits a free pid is still scheduled |
| Kernel.KernelTables.constructor | student-distrib/kernel/tasks.c:18-28 | the initialisation loops leave the boot tables: nothing in use, nothing scheduled |
| Kernel.KernelTables.PidNew | student-distrib/kernel/tasks.c:41-64 | the scan takes the lowest free pid and marks only it, or returns -1 and changes nothing |
| Kernel.KernelTables.ExecuteSection | student-distrib/kernel/syscall.c:163-215 | the critical section of execute is exactly the commit, or the abort, of the transition system |
| Kernel.KernelTables.InitShellSection | student-distrib/kernel/syscall.c:303-355 | the critical section of init_shell is exactly its commit or abort: the caller stays scheduled |
| Kernel.KernelTables.HaltCurrent | student-distrib/kernel/syscall.c:37-83 | halt is the child halt of the transition system when there is a parent; a root shell frees its pid, keeps its place in the schedule and goes on to start a shell for its terminal |
| Kernel.KernelTables.Tick | student-distrib/kernel/scheduling.c:70-161 | a tick changes the running pid to the round-robin choice and nothing else |
| TermScreen.KeyShowsTape | student-distrib/drivers/termios.c:312-435 | for every key, modifiers included, the driver's screen stays the window on the tape, and stores leave the screen exactly when the tape says so |
| TermScreen.StreamShowsTape | student-distrib/drivers/termios.c:95-110 | the same over every stream of keys of any length |
| TermScreen.WriteShowsLastLines | student-distrib/drivers/termios.c:366-434 | whatever bytes other than backspace and delete are written to a cleared terminal, it shows the last 25 lines of the unbounded page they make, the cursor on the screen at the end of the text |
| TermScreen.ShowPadded | student-distrib/drivers/termios.c:366-386 | a newline pads the tape to a multiple of 80 and a tab to a multiple of 8, scrolling included |
| TermScreen.ShowBackspaced | student-distrib/drivers/termios.c:339-358 | backspace takes the last character off the tape, also across a line break, and fails exactly at the top left cell |
| TermScreen.ShowDeleted | student-distrib/drivers/termios.c:359-365 | delete, despite its wrong column bound, changes nothing on any reachable screen, except that in the last cell it stores past the end |
| TermScreen.BackspacedText | student-distrib/drivers/termios.c:339-358 | on every screen, whatever is on it, backspace takes the character before the cursor out of its row, closes the gap with a blank at the end, and touches no other row |
| TermScreen.BackspacedUp | student-distrib/drivers/termios.c:339-346 | in the first column it goes to the end of the row above and blanks that cell only; it fails if and only if there is no row above |
| TermScreen.DeletedText | student-distrib/drivers/termios.c:359-365 | on every screen, left of column 24, delete shifts the columns up to 24 only and blanks column 25, and touches no other row |
| TermScreen.DeletedFar | student-distrib/drivers/termios.c:359-365 | from column 24 on it blanks the next cell only, in the next row if need be; it fails if and only if that is past the screen |
| TermScreen.Scrolled | student-distrib/drivers/termios.c:583-591 | every row takes the characters of the row below and the last becomes blank |
| TermInput.ReadStops | student-distrib/drivers/termios.c:134-147 | a read takes min(len, pending, first newline + 1) bytes, with a newline only in the last place, and that number is the only one so described |
| TermInput.AcceptIsStack | student-distrib/drivers/termios.c:180-231 | with the index at the end of the data, keys push and pop a stack of at most 128 bytes: delete and both shifts do nothing |
| TermInput.BackspaceUndoesIff | student-distrib/drivers/termios.c:182-231 | wherever the index stands, backspace takes back a key just typed if and only if everything from the index on is one character repeated; the return count keeps a newline so erased |
| TermInput.DeleteIsBackspace | student-distrib/drivers/termios.c:182-209 | inside the line, delete erases the character before the index, as backspace does, and leaves the index |
| TermInput.SessionIsLedger | student-distrib/drivers/termios.c:119-244 | over every interleaving of keys, reads and resets, bytes read followed by bytes pending are the accepted keystrokes, backspace having removed only unread ones; the index equals the end, at most 128; the return count is the pending newlines plus the erased ones |
| TermInput.DrainCounts | student-distrib/drivers/termios.c:152-157 | a read takes as many newlines off the buffer as it takes off the return count |
| TermInput.InactiveReadExact | student-distrib/drivers/termios.c:149-157 | a read from a terminal that is not active leaves both buffers as it should, whatever the active one holds, if and only if it takes everything pending on its own |
| TermInput.InactiveReadLeaves | student-distrib/drivers/termios.c:149-157 | byte by byte: the bytes not taken overwrite the front of the active line, which keeps its length; the reader is left as many bytes as it should, but the first it had |
| Terminals.StepGood | student-distrib/drivers/termios.c:95-281 | every event, background reads included, keeps all cursors on their screens and all indexes at the end of their data, and the active terminal lit |
| Terminals.ControlKey | student-distrib/drivers/termios.c:387-392 | control with byte 108, while it fits the line, leaves 2000 blank cells, the cursor at the origin and an empty line; no other control key changes the screen, though the line takes it, and the four keys handled before work as without control |
| Terminals.LitIff | student-distrib/drivers/termios.c:276-278 | an event keeps the is_active flag on exactly the active terminal if and only if it does not open one in the background |
| Terminals.Independent | student-distrib/drivers/termios.c:442-575 | in every run whose reads are on the active terminal, or spinning, or draining, each of the four terminals ends exactly as one terminal alone would that saw only its own keys, writes, reads and opens |
| Terminals.SheetRunShown | student-distrib/drivers/termios.c:172-467 | through keys, echo, writes, clears and reopenings, one terminal's screen is the window on its tape |
| Terminals.EveryScreen | student-distrib/drivers/termios.c:442-575 | both together: after every such run each terminal shows the window on its own tape |
| Terminals.EveryDelivery | student-distrib/drivers/termios.c:119-244 | after every such run each terminal has delivered the frozen part of its own ledger's text and holds the rest, and its return count is exact |
| Terminals.BackgroundReadRepeats | student-distrib/drivers/termios.c:152-157 | a run from boot: two lines typed, a switch and a read in the background leave the reader with the line it has read, where alone it would keep the second |
| Terminals.BootReady | student-distrib/drivers/termios.c:47-62 | boot leaves four proper terminals, the first fresh, active and lit |
| Terminals.FreshReady | student-distrib/drivers/termios.c:252-281 | a fresh terminal shows an empty tape and agrees with an empty ledger, so the run theorems apply from there |
| Termios.TermData.EditLine | student-distrib/drivers/termios.c:180-231 | the editing loops change the buffer, index and count as Accept says, wherever the index stands; a delete leaves the buffer's bounds if and only if it is inside the line with the index at 0 or the buffer full |
| Termios.TermData.FlushInput | student-distrib/drivers/termios.c:451-457 | the buffer is zeroed and nothing is pending |
| Termios.TerminalInit | student-distrib/drivers/termios.c:47-62 | four zeroed terminals with buffers of their own, the first active |
| Termios.Driver.Start | student-distrib/kernel.c:198 | opening terminal 0 after that boots the four-terminal machine, whatever video memory held |
| Termios.Driver.Putc | student-distrib/drivers/termios.c:493-506 | one cell of the screen the terminal owns changes, in video memory if and only if the terminal is active |
| Termios.Driver.ScrollUp | student-distrib/drivers/termios.c:583-595 | the nested copy loop scrolls the terminal's own screen by one row |
| Termios.Driver.Clear | student-distrib/drivers/termios.c:442-467 | screen, cursor and input of the terminal are fresh |
| Termios.Driver.Handle | student-distrib/drivers/termios.c:312-435 | the key handler does to the terminal what Display says, and stops, changing nothing, exactly for the keys that would store outside the screen |
| Termios.Driver.Write | student-distrib/drivers/termios.c:95-110 | a write handles its bytes in order, all of them unless one would store outside the screen, and leaves the input alone |
| Termios.Driver.InputKey | student-distrib/drivers/termios.c:172-244 | an input key edits the active terminal's line and is echoed if and only if it changed it; it fails exactly when a delete would reach outside the buffer or the echo would store outside the screen |
| Termios.Driver.Switch | student-distrib/drivers/termios.c:537-575 | the two copies and the new active pointer change no terminal's logical screen or input |
| Termios.Driver.Open | student-distrib/drivers/termios.c:252-281 | the opened terminal is fresh and lit, the others are untouched |
| Termios.ReadLine | student-distrib/drivers/termios.c:119-161 | the bytes returned, and what both buffers hold afterwards, whether or not the reader's terminal is active |
| Termios.Driver.OnKey | student-distrib/drivers/termios.c:172-244 | the driver refines the four-terminal machine on a key, failing exactly when it does |
| Termios.Driver.OnWrite | student-distrib/drivers/termios.c:95-110 | the driver refines the four-terminal machine on a write, failing exactly when it does |
| Termios.Driver.OnRead | student-distrib/drivers/termios.c:119-161 | the driver refines the four-terminal machine on a read, active or not |
| Termios.Driver.OnSwitch | student-distrib/drivers/termios.c:537-575 | the driver refines the four-terminal machine on a switch |
| Termios.Driver.OnOpen | student-distrib/drivers/termios.c:252-281 | the driver refines the four-terminal machine on an open |
| Console.VideoConsole.VerticalScroll | student-distrib/lib/lib.c:35-52 | rows move up with their attributes and the last becomes blank |
| Console.VideoConsole.Putc | student-distrib/lib/lib.c:210-232 | the console's cursor arithmetic, double scroll check included, comes to one cell, or one new line, per byte |
| Console.VideoConsole.Puts | student-distrib/lib/lib.c:191-201 | a string is put byte by byte and its length returned |
| Console.PutsShowLastLines | student-distrib/lib/lib.c:191-232 | whatever string of bytes is put on a blank screen, of any length, the console shows the last 25 lines of the page it makes, in attribute 7, every byte but the two line ends having a cell |
| Console.NativeIs | student-distrib/drivers/termios.c:499-526 | a cell survives a copy through its character if and only if its attribute is 7, or 0xFF for characters from 128 on |
| Console.NewlineAgrees | student-distrib/lib/lib.c:213-229 | console and terminal agree on a newline if and only if no scrolling is due or every surviving cell is native |
| Console.AgreeIffCommon | student-distrib/lib/lib.c:210-232 | console and terminal agree on a byte on all native screens if and only if it is a common one |
| Console.StringsAgree | student-distrib/lib/lib.c:210-232 | from equal native screens every string of common bytes leaves equal screens and cursors |
| FileSystem.ContentAt | student-distrib/drivers/fs.c:125-129 | the block map and the concatenation of the mapped blocks agree at every position of the file |
| FileSystem.ContentIsFile | student-distrib/drivers/fs.h:41-59 | in an image laid out byte by byte as boot block, inodes and data blocks, its numbers stored lowest byte first, the flat file of an inode is its data blocks joined and cut off at its length |
| FileSystem.ReadData | student-distrib/drivers/fs.c:114-150 | a read returns min(length, file length - offset), or 0 past the end, its bytes are that slice of the flat file, and nothing is stored beyond one byte behind them; for length 0xFFFFFFFF it always fills the request, the offset wrapping around |
| FileSystem.ChunksConcat | student-distrib/drivers/fs.c:265-282 | successive reads of any sizes put together the file from where they began |
| FileSystem.OpenFile.Read | student-distrib/drivers/fs.c:265-282 | the position moves by the bytes returned, which are the next slice; a closed file gives -1 and changes nothing |
| FileSystem.Cat | syscalls/ece391cat.c:21-28 | the loop ends, having written the rest of the file, or with code 3 and nothing written |
| CatOnTerminal.CatTo | syscalls/ece391cat.c:21-28 | cat of any file on a fresh terminal ends with the screen showing the window on the file's tape, wherever the reads fall, failing exactly when that tape leaves the screen; for a file that only moves forward it shows the last 25 lines |
| Grep.DoOneFile | syscalls/ece391grep.c:10-66 | whatever the uninitialised buffer held, the program ends, having printed the entries of exactly the pieces searched, in order and once each, wherever lines fall on the buffer's boundaries; with no newline in the extra cell these are the report on the file. Read line by line, the output is name, colon and piece for exactly the pieces that hold the pattern, and these are the lines of the file if none is cut |
| Grep.ReportTells | syscalls/ece391grep.c:41-51 | when every line fits the buffer, the report split at newlines has exactly one piece for each line that holds the pattern, in order: the name, a colon and that line |
| Grep.LinesOfEnded | syscalls/ece391grep.c:31-39 | splitting at newlines undoes putting lines together, with or without a last newline |
| Grep.ReportIsEntries | syscalls/ece391grep.c:10-66 | when every line fits the buffer, the report is the entry of every line that holds the pattern, in order and once each |
| Grep.CutsAreLinesIff | syscalls/ece391grep.c:31-39 | the pieces searched are the lines of the file, empty ones aside, if and only if every line fits the buffer |
| Grep.StaleIff | syscalls/ece391grep.c:33-41 | a newline in the extra cell leaves the pieces searched unchanged if and only if the first full buffer not ending in one ends the file, or is followed by a newline, or is a single line |
| Grep.Matches | syscalls/ece391support.c:35-46 | the comparison stops inside the line and succeeds exactly when the pattern stands there |
| Grep.SearchLine | syscalls/ece391grep.c:41-51 | the search finds the pattern exactly when the line contains it |
| Grep.CopyDown | syscalls/ece391support.c:14-17 | the overlapping copy moves the string to the front |
| Grep.ScanBuffer | syscalls/ece391grep.c:28-57 | what is printed and what is carried over make up what was in the buffer and is still in the file; a newline in the extra cell ends the last line of a full buffer and is wiped out by it |
| Blink.OnIff | fish/blink.S:60-90 | a character added is on after n ticks if and only if n modulo its period is below its on length, for every n and all 16-bit lengths |
| Blink.BlinksInRun | fish/blink.S:49-99 | so it stays in any run of adds, removes, syncs and ticks that neither removes nor synchronises it |
| Blink.InStep | fish/blink.S:267-275 | after a sync two characters have equal status and countdown until one is synchronised again or removed |
| Blink.FirstFree | fish/fish.c:161-171 | the slot found is free and every lower one taken; none is found only when all are taken |
| Blink.FreeIff | fish/fish.c:161-171 | the pool is exhausted if and only if all 2000 slots are listed |
| Blink.AddTidy | fish/blink.S:105-184 | an add of a location other than 0 succeeds if and only if it is below 2000 and a slot is free, and puts the character, switched on, in front of an acyclic list that still lists exactly the slots in use |
| Blink.AddTidyIff | fish/blink.S:131-162 | the list stays in agreement with the pool if and only if the location is not zero or nothing was added |
| Blink.AddZeroTwice | fish/blink.S:131-162 | adding location zero twice makes the list a knot that no walk leaves |
| Blink.UnlinkTidy | fish/blink.S:206-223 | unlinking any entry and clearing its slot keeps list and pool in agreement |
| Blink.UnlinkChars | fish/blink.S:206-223 | and takes exactly that entry out of the list |
| Blink.RemovedIs | fish/blink.S:187-237 | a remove succeeds if and only if the location occurs; then the list is one shorter, the entries before the first match keep their places and those behind it move up; otherwise it is unchanged |
| Blink.SyncedIs | fish/blink.S:240-300 | a sync succeeds if and only if both locations occur; then only the timing of the first entry at the second changes, to that of the first entry at the first, its location and both characters staying; otherwise nothing changes |
| Blink.RemoveUndoesAdd | fish/blink.S:105-237 | over every run in which an add is followed by operations that name other locations and then by a remove, the list ends up as if the character had never been added, as long as the pool does not fill up |
| BlinkList.Blinker.Malloc | fish/fish.c:161-171 | the scan returns the first free slot |
| BlinkList.Blinker.Add | fish/blink.S:105-184 | the heap afterwards is that of AddTo; for a location other than 0 the list is valid and one longer at its head |
| BlinkList.Blinker.Find | fish/blink.S:351-379 | the walk finds the first entry at the location |
| BlinkList.Blinker.Remove | fish/blink.S:187-237 | exactly the first match goes, or -1 and nothing changes |
| BlinkList.Blinker.Sync | fish/blink.S:240-300 | the first match of the low half takes lengths, countdown and status from that of the high half, or -1 |
| BlinkList.Blinker.RtcTick | fish/blink.S:49-99 | every listed character gets one tick and nothing else changes |
| BlinkList.Blinker.Replay | fish/blink.S:49-300 | any run of adds of locations other than 0, removes, syncs and ticks on the pool keeps it tidy and leaves the list the run theorems speak of |
| Paging.ApplyInv | student-distrib/kernel/paging.c:127-299 | allocations, video mappings and video updates keep every directory down to the low table, the kernel page, its video table and its own image |
| Paging.WalkAllocated | student-distrib/kernel/paging.c:138-173 | 128 MB + k goes to (pid + 1) * 4 MB + k, for reads and writes of user code and kernel, and the 4 to 8 MB range to itself for the kernel only |
| Paging.WalkConfined | student-distrib/kernel/paging.c:225-299 | whatever user code reaches lies in its own 4 MB image or below 4 MB |
| Paging.EveryRun | student-distrib/kernel/paging.c:22-299 | that translation, writes included, holds after every sequence of operations on pids 1 to 15, with any addresses |
| Paging.EveryWalk | student-distrib/kernel/paging.c:22-299 | after every such sequence, for every 32-bit address and every kind of access: an allocated pid has its image, the kernel, the low video page, its own video page if and only if it asked for one, and nothing else |
| Paging.WalkBoot | student-distrib/kernel/paging.c:22-98 | the boot directory maps the kernel and the video page to themselves for the kernel, and nothing else |
| Paging.UpdateWalks | student-distrib/kernel/paging.c:292-299 | for a pid that has a video page, an update makes it lead to the page that agrees with the address in bits 12 to 21; every other address of that pid, and every address of every other one, leads where it did |
| Paging.UpdateReachesIff | student-distrib/kernel/paging.c:292-299 | it leads to the page of the address given if and only if that lies below 4 MB |
| Paging.LastRedirect | student-distrib/kernel/paging.c:225-299 | after every sequence of operations the video page leads where the last request or update for its pid has put it |
| Paging.EveryRunIsolates | student-distrib/kernel/paging.c:22-299 | after every such sequence two pids share no user page from 4 MB up, and none reaches the kernel's |
| Paging.AllocateExposesKernel | student-distrib/kernel/paging.c:127-177 | an allocation opens kernel memory to user code if and only if it is for pid 0 |
| AddressSpaces.LiveWasCommitted | student-distrib/kernel/syscall.c:156-193 | a process is live after a run only if it was before or the run committed it |
| AddressSpaces.LiveProgramsInPlace | student-distrib/kernel/syscall.c:163-193 | after every run from boot the program area of every live process is its own 4 MB image and the kernel is out of its reach |
| AddressSpaces.LiveProgramsApart | student-distrib/kernel/syscall.c:163-193 | after every run from boot no two live processes share a user page from 4 MB up |
| PageTables.Memory.Init | student-distrib/kernel/paging.c:22-98 | the loops leave the initial tables |
| PageTables.Memory.AllocateFor | student-distrib/kernel/paging.c:127-177 | the three entries of an allocation, or -1 for a pid out of range |
| PageTables.Memory.MapVideoFor | student-distrib/kernel/paging.c:225-280 | the video mapping, and the address handed back translates to video memory |
| PageTables.Memory.UpdateVideoFor | student-distrib/kernel/paging.c:292-299 | only the frame of the video page changes, to ten bits of the address |
| Numbers.NumeralDenotes | student-distrib/lib/lib.c:257-290 | for every 32-bit value and radix 2 to 36 the numeral reads back as the value, has no leading zero and at most 32 digits |
| Numbers.Strrev | student-distrib/lib/lib.c:299-315 | the string is reversed in place and nothing else changes |
| Numbers.Itoa | student-distrib/lib/lib.c:257-290 | the buffer holds the numeral and a NUL, and nothing else changes |
| Numbers.PrintUnsigned | student-distrib/lib/lib.c:108-137 | %x and %u print a numeral that reads back as the value |
| Numbers.PrintHex8 | student-distrib/lib/lib.c:114-124 | %#x prints exactly eight hexadecimal digits that denote the value |
| Numbers.PrintSigned | student-distrib/lib/lib.c:139-153 | %d prints a string that reads back as the value, the least 32-bit integer included |
| Command.RecoverableIff | student-distrib/kernel/syscall.c:125-146 | a command is name, space and arguments of what was parsed if and only if it has a space with at most 31 bytes before and 127 behind it |
| Command.SplitJoined | student-distrib/kernel/syscall.c:125-146 | name, space, arguments parse back to name and arguments whatever the buffers held |
| Command.SplitInjective | student-distrib/kernel/syscall.c:125-146 | different commands with a space never parse alike |
| Command.SplitFailsIff | student-distrib/kernel/syscall.c:125-146 | a command is refused if and only if its first 33 bytes have no space, and overruns a buffer if and only if it is empty, or its name has exactly 32 bytes, or more than 127 follow its space |
| Command.StaleArguments | student-distrib/kernel/syscall.c:125-146 | a command of at most 31 bytes without a space keeps its name and gets as arguments what the buffer happened to hold, up to one byte less than its own length |
| Command.ParseCommand | student-distrib/kernel/syscall.c:125-146 | the loop leaves the two parts as C strings, refuses a name longer than 32 bytes, and stops exactly for the commands that would store outside a buffer |
| Command.GetArgsFitsIff | student-distrib/kernel/syscall.c:503-520 | getargs is refused if and only if the size is zero, or positive and below the length; it succeeds inside the caller's buffer if and only if the size exceeds the length; at equality, or for a negative size, it succeeds and stores past it |
| Command.ArgsArriveIff | student-distrib/kernel/syscall.c:125-196 | what follows the first space reaches the child through both buffers, the PCB field and its own, if and only if at most 31 bytes precede the space, at most 99 follow it and the child asks for more than that; it is turned away with nothing overrun if and only if more than 32 precede it, or the child asks for none or for fewer than there are |
| Command.ArgsField.Store | student-distrib/kernel/syscall.c:195-196 | the PCB holds the argument string if and only if it has fewer than 100 bytes |
| Command.ArgsField.Get | student-distrib/kernel/syscall.c:503-520 | getargs copies the argument string, or returns -1 and stores nothing; the copy fits exactly when the buffer has room for the NUL |
| Pcb.StackIdentifies | student-distrib/kernel/pcb.c:112-146 | masking a stack pointer gives the PCB of a pid if and only if it points into that pid's block |
| Pcb.StackTop | student-distrib/kernel/syscall.c:186-199 | the stack given to a new process is the one the TSS gets on later switches, and lies in the block of its PCB |
| Pcb.BlocksDisjoint | student-distrib/kernel/pcb.c:136-146 | blocks of different pids share no address |

## Left out

- RootRestart.RestartIff: a halted root shell that comes back under another pid, finds no pid or whose shell does not load makes no further system calls in these runs, because its stack pointer was moved over its saved user context (kernel/syscall.c:44-45) and what it would go on to do is not defined.
- Processes.GuardedReachable: root halts are not among its events; RootRestart.ReachedIff has them. The keyboard's check and the allocation that follows it are one step.
- Processes.StepKeeps: shell starts nested in one process may be committed in any order, a superset of what interrupts produce.
- Kernel.KernelTables.constructor: scheduling_init also stores one flag past the end of its array.
- Kernel.KernelTables.Tick: the redirection of the next process's video page is not part of it; Paging covers such updates at any time and with any address.
- Termios.TerminalInit: its memset clears four times the size of the array of terminals (drivers/termios.c:52); the array is zeroed here and nothing else is touched.
- Terminals.EveryScreen: keys and written bytes are handled one at a time. In the source an interrupt can come inside the handling of one byte of a write, with an echo on the same terminal or a switch.
- Termios.Driver.Switch: the VGA cursor registers are not modelled, here or elsewhere in the driver.
- Terminals.EveryDelivery: not for runs with background reads that leave bytes behind.
- FileSystem.ReadData: no 32-bit wrap-around of addresses.
- FileSystem.OpenFile.Read: not for the length 0xFFFFFFFF, which no inode can map.
- Grep.DoOneFile: not for files with NUL bytes, which end strings early; failures of open and close are not modelled.
- Blink.AddTidy: the characters poked into video memory by add, tick and sync are not modelled, nor is the call that copies an entry out.
- Paging.EveryRun: the flags the kernel always leaves zero, the translation cache and the control registers are not modelled.
- Register and stack switching, iret frames and the task-state segment are reduced to which pid is running.
- Stale PCB fields on pid reuse, file-descriptor tables and the driver jump tables.
- Directory lookup, the executable check, the loader, and reads of directories.
- The keyboard's scancode tables, the clock, interrupt-controller and timer drivers, exception screens, boot code and the demo programs.

# A verified model of a small three-terminal x86 kernel

This project models, in Dafny 4.11, the parts of the kernel and of its user programs that keep state or walk buffers,
and proves that each agrees with a simple specification. `dafny verify dfyconfig.toml` checks everything.

The model takes the form of the source: objects whose fields change in place are classes over arrays, loops are loops
with invariants, and each is tied to a specification function on values about which the properties are then proved.

| file | models | against |
|---|---|---|
| `Text.dfy` | C strings, lines, rows of fixed width | -- |
| `Screen.dfy` | one 24x80 screen and its cursor | the last 24 rows of the 80-column layout of a text |
| `Terminals.dfy` | what three users see: independent screens, line editing | transcripts, edited lines |
| `Video.dfy` | four video frames, the remappable entry 0xB8, cursors, the keyboard and terminal handlers | `Terminals.dfy`, over whole runs |
| `Processes.dfy` | `pid[]`, `terms[].pid` and the PCBs; tick, execute, halt | one stack of processes per terminal, over whole runs |
| `Paging.dfy` | the page directory and both page tables | the intended map of every address |
| `Machine.dfy` | processes and page tables together | whose memory and whose screen is mapped, over whole runs |
| `FileSystem.dfy`, `Cat.dfy`, `Grep.dfy` | the block walk, descriptors, and two programs that read through them | flat byte sequences, naive line search |
| `Fish.dfy`, `Blink.dfy` | blinking entries; the intrusive list in a fixed pool | a sequence of entries, modular arithmetic, over whole runs |
| `Memory.dfy`, `Numbers.dfy`, `Rtc.dfy` | block copies, number printing, the shared clock | snapshots, parsing, counting interrupts |

Each handler and each system call is one atomic step. A frame's bytes are an array, addresses are numbers, and a saved
machine context is an (ebp, esp) pair.

## Where the code does not keep its promise

These are results: the code was kept as it is, and the condition under which the promise holds was proved.

- grep splits a file at newlines, but also after every 1024 bytes without one. It is a line search, for every
  pattern it can be given, exactly when no line is longer than 1024 bytes; a file with a longer one is already searched
  wrongly for that line's first byte (`Grep.StreamingIsGrepIff`, `Grep.OverlongFails`).
- `file_read` asked for 0 bytes skips to the end of the file; it counts as it should exactly when something is asked for
  or nothing is left (`FileSystem.ReadCountIff`).
- A process's output misses its screen while its terminal has been made visible but not yet scheduled again. Output
  reaches the screen exactly outside that period (`Terminals.WriteShowsIff`). The period starts exactly with a switch to
  the scheduled terminal while its page is a background frame, and the next tick ends it
  (`Terminals.LostOnlyBySwitch`); two ticks and a switch reach it (`Terminals.LossHappens`). `terminal_write` never
  affects another terminal (`Video.Console.TerminalWrite`).
- `terminal_write` moves the kernel's entry for the screen and not the processes'. Between two ticks the two reach the
  same screen exactly unless the scheduled terminal was visible at the tick and something was written while it was not
  (`Machine.AgreeBetweenTicks`). A process that draws through its mapped screen page draws on its own terminal exactly
  while that is visible or not as it was at the tick (`Machine.OwnBetweenTicks`), and on another terminal's screen
  exactly while its own was visible at the tick and no longer is (`Machine.AnotherBetweenTicks`). After every tick all
  is as intended (`Machine.AfterTick`).
- The line buffer holds 128 characters and Enter does not look. A run stores only inside the line buffers exactly when
  every Enter finds fewer than 128 characters (`Terminals.InBufferIff`). A line has at most 126 characters and one for
  each Enter since the last read (`Terminals.LineBound`), so one or two Enters between reads always fit, and of the
  bounds on their number exactly those up to 2 keep every run inside (`Terminals.EntersLimit`).
- A backspace at the top left corner takes the cursor's row from 0 to 255 (`Screen.BackOnScreenIff`), and the glyph
  stored there hits no page (`Paging.CornerGlyphFaults`). Over any run all cursors stay on their screens exactly when
  every backspace, a process's or an erase's, finds its cursor past the corner (`Terminals.CursorsStayIff`). A letter, a
  tick and one backspace by the process are enough for the next erase to find it there (`Terminals.EraseAtCorner`);
  without process backspaces and with at most two Enters between reads it never does (`Terminals.KeysAndReadsSafe`).
- `memcpy` within one memory leaves a snapshot copy, whatever the bytes, exactly when it overwrites no source byte before
  reading it or moves one aligned dword (`Memory.MemcpyIsSnapshotIff`).
- `mp1_ioctl_add` accepts location 0, the mark of a free slot. Then no list threads the pool
  (`Blink.BlinkList.IoctlAdd`), and the next add makes the list a cycle (`Blink.BlinkList.ZeroLocationLoops`).
- A blink length is a signed 16-bit countdown: 0 and lengths above 32768 last a single tick (`Fish.Lasts`, `Fish.OnAfter`).
- `mp1_ioctl_sync` always shows the off character, since the condition of its conditional move never holds
  (`Blink.BlinkList.IoctlSync`). For a target alone at its location the screen shows it afterwards exactly if the
  target's first phase change has come, the source was off, or the two characters are the same (`Fish.SyncShowsIff`).
- `rtc_write` accepts 0 and the smallest integer besides the powers of two (`Rtc.AcceptedIff`); after 0 the next read
  divides by zero (`Rtc.Driver.RtcRead`).
- The comment on `terminal_write` in `student-distrib/term.c` still speaks of a `screen` buffer; the code writes to
  video memory, and the model follows the code.

## Model

| member | source | states |
|---|---|---|
| Screen.LostCursor | student-distrib/term.c:28-62 | Cursor movement is the same whether glyphs reach the screen or a background frame |
| Screen.BackOnScreenIff | student-distrib/term.c:45-51 | The cursor's bytes stay on the screen exactly when it is not at the top left corner, from which the row becomes 255 |
| Screen.StaysIff | student-distrib/term.c:123-153 | While a text is written the cursor stays on the screen exactly when no backspace finds it at the corner, and then moves as the screen's |
| Screen.PutAllConcat | student-distrib/term.c:123-153 | Writing a and then b leaves the screen that writing a + b leaves, for all texts and screens |
| Screen.PutPage | student-distrib/term.c:130-152 | One byte extends the screen as it extends the 80-column layout, wraps and scrolls included |
| Screen.ScreenShowsLayout | student-distrib/term.c:102-159 | A screen is exactly the last 24 rows of the 80-column layout of all text without backspaces ever written to it, cursor at its end |
| Screen.PutAllBlankAhead | student-distrib/term.c:70-82 | Every cell from the cursor on stays blank under writing, scrolls and backspaces included |
| Screen.PutAllLostBlankAhead | student-distrib/term.c:70-82 | The same while the glyphs go to another frame, without backspaces |
| Screen.PutSpells | student-distrib/term.c:146-152 | After a typed character the cells before the cursor spell the longer line, across wraps and scrolls |
| Screen.EraseSpells | student-distrib/term.c:124-130 | After a backspace they spell the line without its last character |
| Screen.PutAllAhead | student-distrib/term.c:28-62 | Output without backspaces never brings the cursor within a line's length of the corner |
| Text.RowsExtend | student-distrib/term.c:28-62 | Laying out one more byte is extending the last row, or starting a new one |
| Text.LinesJoin | syscalls/ece391grep.c:30-32 | Lines hold no newline, and joined by newlines they are the text again |
| Text.WrapJoins | student-distrib/term.c:28-38 | The rows of a line concatenate to it; all but the last are full and the last is not |
| Terminals.Rotates | student-distrib/pit.c:46 | Over any run the scheduled terminal is the first one advanced by the number of ticks, modulo 3, and by nothing else |
| Terminals.RoundIs | student-distrib/pit.c:46 | Advancing tick by tick is addition modulo 3 |
| Terminals.EveryTerminalRuns | student-distrib/pit.c:46 | Any run with three ticks schedules every terminal |
| Terminals.ControlLClears | student-distrib/kbd.c:89-92 | Ctrl-L, in either case, leaves 1920 blank cells on the visible screen, and its cursor, line and end mark, the other terminals and the schedule as they were |
| Terminals.KeysThatDoNotEdit | student-distrib/kbd.c:56-65 | Escape, undecoded keys and Ctrl-C leave everything as it was; 0x3b to 0x3d change only which terminal is visible |
| Terminals.KeysThatEdit | student-distrib/kbd.c:66-102 | What each other key makes of the line, by its code: newline and the end mark, backspace and delete, up to four spaces for a tab, and the character itself while fewer than 126 are held |
| Terminals.OthersUntouched | student-distrib/term.c:110-117 | Keys touch only the visible terminal and process output only the scheduled one |
| Terminals.KeysAndReadsSafe | student-distrib/kbd.c:66-102 | From boot, without process backspaces and with at most two Enters between reads: cursors on screen, idx at most 126 plus the Enters since the last read and at most row*80+col, so no event leaves a buffer or a screen |
| Terminals.LineBound | student-distrib/kbd.c:66-102 | In every run idx is at most 126 plus the Enters since the last read (127 with one), and the end-of-line mark is set exactly when there was one |
| Terminals.RunRoomy | student-distrib/kbd.c:66-102 | A run without process backspaces in which each Enter finds room never leaves a buffer or a screen |
| Terminals.InBufferIff | student-distrib/kbd.c:66-102 | A run stores only inside the line buffers exactly when every Enter finds fewer than 128 characters |
| Terminals.EntersLimit | student-distrib/kbd.c:66-71 | All runs with at most n Enters between reads store inside the buffers exactly when n is at most 2 |
| Terminals.ThirdEnterOverflows | student-distrib/kbd.c:66-71 | 126 characters and two Enters fit, and the third Enter stores behind the buffer |
| Terminals.CursorsStayIff | student-distrib/term.c:28-62 | Over any run all cursors stay on their screens exactly when every backspace, a process's or an erase's, finds its cursor past the top left corner |
| Terminals.EraseAtCorner | student-distrib/kbd.c:78-84 | A letter, a tick and a process's backspace are a safe run after which an erase leaves the screen |
| Terminals.RunBlankAhead | student-distrib/kbd.c:66-102 | In every such run each screen is blank from its cursor on |
| Terminals.RunShows | student-distrib/term.c:102-159 | Over every run of ticks, switches, writes, keys and reads, terminal t shows what writing its transcript in one go would |
| Terminals.RunShowsLayout | student-distrib/term.c:102-159 | From boot, every screen is the last 24 rows of the layout of everything ever written to its terminal |
| Terminals.WriteShowsIff | student-distrib/term.c:104-117 | A process's writes always reach its screen exactly when entry 0xB8 is not a shadow of the visible terminal |
| Terminals.LostOnlyBySwitch | student-distrib/pit.c:49-58 | The lossy period starts exactly when the scheduled terminal is made visible while its page is a background frame; every tick ends it |
| Terminals.LossHappens | student-distrib/kbd.c:60-65 | Two ticks and a switch reach the lossy period, and the next write does not show |
| Terminals.RunEdits | student-distrib/kbd.c:66-102 | Between two reads, whatever else happens, input.buffer[0..idx] is what the terminal's keys alone make of it, and the end-of-line mark is set exactly by Enter |
| Terminals.RunEchoing | student-distrib/kbd.c:66-102 | However a line is edited, across wraps, scrolls, tabs, erasures and switches, the cells before the cursor spell input.buffer[0..idx], and that is what the keys alone make of it |
| Terminals.LineWaits | student-distrib/kbd.c:52-102 | A terminal nobody types at or reads keeps its line and its end-of-line mark |
| Terminals.ReadReturnsEditedLine | student-distrib/term.c:166-179 | From one read to the next, over every run: a read can complete exactly when Enter was pressed, returns what the keys made of the line, cut to nbytes, and empties the line |
| Terminals.ReadAfterEnter | student-distrib/term.c:166-179 | A line ended by Enter and left alone until it is read is returned with its newline |
| Video.ScreensSwitched | student-distrib/term.c:224-227 | Save, clear and restore permute the frames so that all three logical screens stay the same |
| Video.PanMoves | student-distrib/term.c:76-78 | memmove and whiteout of one row scroll exactly one frame |
| Video.CellLands | student-distrib/lib.c:257-272 | A stored cell changes one cell of one frame's screen and no other frame |
| Video.Console.constructor | student-distrib/term.c:195-209 | Boot: three blank screens, terminal 2 scheduled, 0 visible |
| Video.Console.Putc | student-distrib/lib.c:233-272 | One cell is stored at the seek position; newline, return, backspace and tab store nothing |
| Video.Console.PutCell | student-distrib/term.c:124-152 | A glyph is drawn at the terminal's cursor unless its page is a shadow; other terminals keep everything |
| Video.Console.Pan | student-distrib/term.c:70-82 | The terminal's own frame scrolls, wherever its output goes; the cursor goes to the last row |
| Video.Console.CursorIncrementLine | student-distrib/term.c:58-62 | The start of the next row, scrolling after the last |
| Video.Console.CursorIncrement | student-distrib/term.c:28-38 | One cell on, wrapping, and scrolling at the end of the last row |
| Video.Console.CursorDecrement | student-distrib/term.c:45-51 | One cell back, to the end of the row above from column 0, and off the screen exactly from the top left corner |
| Video.Console.WriteByte | student-distrib/term.c:123-153 | One byte acts on its own terminal's view and leaves every other terminal as it was, whatever the mapping |
| Video.Console.WriteBytes | student-distrib/term.c:123-153 | The loop is the composition of its bytes |
| Video.Console.Remap | student-distrib/term.c:104-107 | A process never writes through a stale mapping to the visible terminal's frame |
| Video.Console.TerminalWrite | student-distrib/term.c:102-159 | Refines a write to the scheduled (or, for fd 100, the visible) terminal; no other logical screen changes |
| Video.Console.ClearPhysScreen | student-distrib/lib.c:37-51 | The physical frame becomes blank and no other frame changes |
| Video.Console.TermSwitch | student-distrib/term.c:218-234 | Changes which terminal is visible and none of the three logical screens, lines or cursors |
| Video.Console.Tick | student-distrib/pit.c:46-58 | The next terminal, modulo 3, is scheduled and both 0xB8 entries map its logical frame |
| Video.Console.TerminalRead | student-distrib/term.c:166-179 | Copies the line cut to nbytes, touches nothing behind it, empties the line; -1 for a negative count |
| Video.Console.Type | student-distrib/kbd.c:97-102 | A character is stored at idx and echoed exactly while fewer than 126 are in the line |
| Video.Console.Enter | student-distrib/kbd.c:66-71 | Newline stored at idx and echoed, end of line marked, if there is room |
| Video.Console.Tab | student-distrib/kbd.c:72-77 | Up to four spaces, as many as there is room for |
| Video.Console.Erase | student-distrib/kbd.c:78-84 | The last character leaves the line and the screen; nothing happens on an empty line |
| Video.Console.Clear | student-distrib/kbd.c:89-92 | Every cell of the visible screen is blank, its cursor and line stay, other screens stay |
| Video.Console.KeyboardHandler | student-distrib/kbd.c:50-106 | Refines one key press at the visible terminal, for every decoded character that finds room in the buffer and on the screen, and stores in the line buffers only where `StoresAt` says |
| Video.Console.HandleAll | student-distrib/term.c:102-234 | Every run of the handlers that stays within buffers and screens refines the three independent terminals, process backspaces and repeated Enters included, and ticks go round all three |
| Video.Session | student-distrib/term.c:102-234 | From boot, over any such run, each terminal's own frame holds the last 24 rows of the layout of everything written to it, if nothing was lost or cleared |
| Processes.StepPlaces | student-distrib/syscall_functions.c:158-183 | Exactly which place of which stack an event fills or empties |
| Processes.StepSound | student-distrib/syscall_functions.c:50-64 | Every event keeps roots 0, 1, 2, children in 3..5, and no process in two places |
| Processes.RunSound | student-distrib/syscall_functions.c:158-183 | Every reachable table is so |
| Processes.Rotates | student-distrib/pit.c:46 | Over any run the scheduled terminal is the first one advanced by the number of ticks, modulo 3, and by nothing else |
| Processes.EveryTerminalRuns | student-distrib/pit.c:46 | Any run with three ticks schedules every terminal |
| Processes.AwayIsUntouched | student-distrib/pit.c:39-46 | Nothing done while a terminal is not scheduled alters its processes or its saved context |
| Processes.ResumedWherePreempted | student-distrib/pit.c:68-82 | A terminal is resumed at exactly the (ebp, esp) saved at its last preemption |
| Processes.DeepPartStays | student-distrib/syscall_functions.c:50-64 | Processes below the top are untouched as long as the stack stays deeper |
| Processes.HaltMatchesExecute | student-distrib/syscall_functions.c:66-73 | A halt returns to the context of the execute that started its process, and to the stack before it, however many nested processes, ticks and other events came between |
| Processes.HaltUndoesExecute | student-distrib/syscall_functions.c:50-98 | Execute then halt is the identity; a root halt keeps every process in place |
| Processes.FullIffSix | student-distrib/syscall_functions.c:160-167 | A new process is refused exactly when six run |
| Processes.RegionsDisjoint | student-distrib/syscall_functions.c:169-179 | PCBs and kernel stacks below 8 MB and 4 MB user frames above are disjoint for distinct pids, and lie without gaps from 8 MB on |
| Processes.ChainIsStack | student-distrib/syscall_functions.c:181-183 | Following parent links from any running process spells the stack below it and ends at its root |
| Processes.EncodesLaunch | student-distrib/syscall_functions.c:158-190 | The arrays after an execute encode the pushed stack |
| Processes.EncodesPop | student-distrib/syscall_functions.c:65-93 | The arrays after a child's halt encode the popped stack |
| Processes.EncodesRoot | student-distrib/syscall_functions.c:60-64 | The arrays after a root's halt and new shell encode the same stacks |
| Processes.EncodesTick | student-distrib/pit.c:39-46 | Saving a context alters no other terminal's |
| Processes.FirstSlot | student-distrib/syscall_functions.c:160-167 | The first free slot is the lowest pid not running |
| Processes.Kernel.constructor | student-distrib/term.c:195-209 | No terminal has a process before the first tick |
| Processes.Kernel.BootTick | student-distrib/pit.c:39-66 | Each boot tick starts the root shell of the next terminal, with the terminal's own number |
| Processes.Kernel.Booted | student-distrib/pit.c:62-66 | Three boot ticks establish the encoding |
| Processes.Kernel.Launch | student-distrib/syscall_functions.c:153-198 | -1 exactly for an invalid file or a full pool; otherwise the lowest free slot, its links, user page, kernel stack and this_pcb |
| Processes.Kernel.Execute | student-distrib/syscall_functions.c:116-219 | Refines a push on the scheduled terminal's stack |
| Processes.Kernel.Halt | student-distrib/syscall_functions.c:50-105 | Refines a pop, returning to the saved caller; a root is relaunched in place |
| Processes.Kernel.Tick | student-distrib/pit.c:37-86 | Saves the preempted context, returns the next terminal's own, and user page, esp0 and this_pcb are those of its process |
| Processes.Kernel.HandleAll | student-distrib/syscall_functions.c:50-219 | The arrays encode the stacks after every run, ticks go round all three terminals, and a terminal not scheduled meanwhile keeps every field of its processes' PCBs |
| Processes.OneStored | student-distrib/syscall_functions.c:177-190 | Storing into the running process's PCB or a free one keeps all other PCBs of running processes whole |
| Processes.Session | student-distrib/pit.c:37-86 | From power-on: three boot ticks, then every run keeps the encoding |
| Paging.AgreeIff | student-distrib/syscall_functions.c:332-338 | USER_SCREEN and 0xB8000 reach the same bytes exactly when the two entries hold the same frame |
| Paging.UserReach | student-distrib/paging.c:42-44 | In user mode exactly the process's own 4 MB and the frame in the processes' entry are reachable, each byte at one address |
| Paging.MappedRanges | student-distrib/paging.c:8-48 | The kernel's 4 MB map to themselves, the user page to its process's 4 MB, and nothing below the video pages is mapped |
| Machine.VideoPages | student-distrib/paging.c:16-23 | The kernel's map of all five video pages is the one the console stores through |
| Machine.AliasIsVisible | student-distrib/paging.c:22-23 | Page 0xB7 always reaches the frame of the visible terminal's screen |
| Paging.Mmu.TranslatesTo | student-distrib/paging.c:8-48 | The tables translate every address, in both modes, to the intended place or fault |
| Paging.Mmu.InitPaging | student-distrib/paging.c:8-48 | Exactly the intended pages are present, whatever the tables held before |
| Paging.Mmu.Remap | student-distrib/pit.c:49-58 | Both screen entries follow the scheduled terminal, whatever they held; all other addresses stay |
| Paging.Mmu.MoveStale | student-distrib/term.c:104-107 | A stale physical mapping is moved in the kernel's table only; all other addresses stay |
| Paging.Mmu.LoadUser | student-distrib/pit.c:68-69 | The user page is that of the given process; all other addresses stay |
| Machine.AfterTick | student-distrib/pit.c:45-76 | After a tick, in any run of ticks, switches, writes, executes and halts, kernel and process see the scheduled terminal's screen, and in user mode exactly that and the running process's memory are reachable |
| Machine.SlotFrames | student-distrib/term.c:104-107 | Until the next tick the processes' entry stays, and the kernel's moves at the first write while the scheduled terminal, visible at the tick, is not |
| Machine.AgreeBetweenTicks | student-distrib/term.c:104-107 | Exactly when kernel and process see the same screen between two ticks |
| Machine.OwnBetweenTicks | student-distrib/term.c:224-227 | Exactly when a process reaches its own terminal's screen between two ticks |
| Machine.AnotherBetweenTicks | student-distrib/term.c:224-227 | Exactly when it reaches another terminal's screen |
| Paging.CornerGlyphFaults | student-distrib/lib.c:233-272 | A glyph at row 255, column 79 goes to an unmapped address through either base |
| Machine.RunsMatch | student-distrib/term.c:104-107 | Over every history of terminal events and of processes starting and ending, the page-table run has the same terminals scheduled and visible and the same frame in the kernel's entry as the terminals' run |
| Machine.EventsMatch | student-distrib/term.c:104-107 | The terminals' events move the kernel's entry as the machine's do |
| Machine.System.constructor | student-distrib/pit.c:37-86 | init_paging and three boot ticks: every address translates as intended for terminal 2 and its shell |
| Machine.System.HandleTick | student-distrib/pit.c:37-86 | Both halves of the tick: processes, context and every translated address |
| Machine.System.HandleExecute | student-distrib/syscall_functions.c:158-194 | Refines an execute together with its mapping, and returns the new pid or -1 |
| Machine.System.HandleHalt | student-distrib/syscall_functions.c:50-98 | Refines a halt together with its mapping |
| Machine.System.HandleAll | student-distrib/pit.c:37-86 | Over every run the tables translate every address, in both modes, as the abstract state says |
| Paging.Mmu.SetPde | student-distrib/paging.c:55-67 | One directory entry changes |
| Paging.Mmu.SetPte | student-distrib/paging.c:74-86 | One table entry changes; it maps its own index |
| FileSystem.ReadData | student-distrib/filesystem.c:181-224 | For all offsets and lengths: the flat file's slice, -1 exactly when the inode or a block it visits is out of range, the length exactly when all bytes existed, 0 on a short read |
| FileSystem.ContentIsBlocks | student-distrib/filesystem.c:203-220 | A file is its data blocks one after the other, the last one cut to its length |
| FileSystem.Strncmp | student-distrib/lib.c:508-522 | 0 exactly when the strings agree up to their ends or n bytes |
| FileSystem.Strlen | student-distrib/lib.c:335-340 | The position of the first NUL |
| FileSystem.ReadDentryByName | student-distrib/filesystem.c:141-154 | Nothing for names of more than 32 bytes; of distinct names, an entry is found exactly if its name is the one asked for |
| FileSystem.LookupIs | student-distrib/filesystem.c:141-154 | The same of the lookup function |
| FileSystem.ListedNameOpensEntry | student-distrib/filesystem.c:141-171 | Every listed name, full 32-byte ones included, finds its own entry once NUL-terminated |
| FileSystem.RawName | student-distrib/filesystem.c:74-76 | strlen running past a full name into the type field, clamped to 32, is the name's length |
| FileSystem.ReadCountIff | student-distrib/filesystem.c:28-39 | The count returned is min(nbytes, rest) exactly when nbytes is positive or nothing is left |
| FileSystem.ReadsConcatenate | student-distrib/filesystem.c:28-39 | Reads of any sizes return pieces that concatenate to a prefix of the file, all of it once enough was asked for |
| FileSystem.Process.constructor | student-distrib/syscall_functions.c:360-376 | Standard input and output open, six descriptors free |
| FileSystem.Process.Open | student-distrib/syscall_functions.c:257-289 | The lowest free descriptor at position 0 of the inode of the entry so named, or -1 and no change; -1 for names of more than 32 bytes and for those that no entry has |
| FileSystem.Process.Close | student-distrib/syscall_functions.c:299-306 | Frees an open descriptor from 2 on, and nothing else |
| FileSystem.Process.FileRead | student-distrib/filesystem.c:28-39 | The next bytes of content[pos..], the position advanced by the count and never past the end |
| FileSystem.Process.DirRead | student-distrib/filesystem.c:64-80 | The next name, unterminated; 0 after the last entry |
| FileSystem.Process.Read | student-distrib/syscall_functions.c:229-233 | Dispatch with every refusal |
| FileSystem.Process.ReadSome | student-distrib/syscall_functions.c:229-233 | A positive-size read splits what is unread, and returns 0 only when nothing is |
| FileSystem.Process.ReadPieces | student-distrib/filesystem.c:28-39 | Any sequence of positive-size reads of an open file returns the pieces of its content in order, and all of it once enough was asked for; then nothing is left |
| FileSystem.Process.ListNames | student-distrib/filesystem.c:64-80 | Reading a directory to its end lists every entry's name once, in order |
| Cat.CopyOut | syscalls/ece391cat.c:21-28 | The loop ends and outputs exactly what was unread |
| Cat.Cat | syscalls/ece391cat.c:6-31 | Prints exactly the content of the file so named, of any size, or the message that it was not found, as for every name of more than 32 bytes |
| Grep.StreamingIsGrepIff | syscalls/ece391grep.c:21-60 | The streaming search equals split-then-filter, for every pattern that fits the argument buffer and equally for every pattern of one byte, exactly when no line exceeds 1024 bytes |
| Grep.OverlongFails | syscalls/ece391grep.c:33-57 | With the first overlong line's first byte as the pattern the output is wrong |
| Grep.ContainsIff | syscalls/ece391grep.c:42-51 | A line contains a pattern exactly if it is something, the pattern, and something |
| Grep.EntryFormat | syscalls/ece391grep.c:45-48 | A selected line is printed as name, colon, line and newline; an empty pattern selects none |
| Grep.UserStrncmp | syscalls/ece391support.c:35-46 | The same comparison as the kernel's |
| Grep.TestAt | syscalls/ece391grep.c:43-44 | True exactly when the non-empty pattern occurs at this position of the line |
| Grep.Search | syscalls/ece391grep.c:41-51 | True exactly when the line contains the non-empty pattern |
| Grep.Carry | syscalls/ece391grep.c:35-36 | The overlapping strcpy moves the partial line to the front whole |
| Grep.LineEnd | syscalls/ece391grep.c:30-32 | The first newline from the start, or the end of the data |
| Grep.PrintLine | syscalls/ece391grep.c:41-51 | Prints the line once if selected, and only terminates it in the buffer |
| Grep.TakePiece | syscalls/ece391grep.c:41-57 | Output plus hits still ahead is conserved over a complete line or a full buffer |
| Grep.ScanLine | syscalls/ece391grep.c:30-57 | The same over one turn, carried partial lines included |
| Grep.ScanBuffer | syscalls/ece391grep.c:28-57 | Complete lines printed, an incomplete one left at the front with room to read |
| Grep.Fill | syscalls/ece391grep.c:22-27 | The refill asks for at least one byte and only moves text from file to buffer |
| Grep.Stream | syscalls/ece391grep.c:20-60 | Terminates, and prints exactly the selected pieces in order |
| Grep.DoOneFile | syscalls/ece391grep.c:9-66 | The selected pieces of one file, or a failed open, with its descriptor free again |
| Grep.NextName | syscalls/ece391grep.c:84-91 | The next name, or 0 exactly at the end |
| Grep.SearchEntry | syscalls/ece391grep.c:89-93 | One entry's contribution; dot names are skipped |
| Grep.DirectoryGrep | syscalls/ece391grep.c:84-94 | Over a directory without overlong lines the program's output is the naive search of each file |
| Grep.Grep | syscalls/ece391grep.c:68-97 | The output for the whole directory, or the message that it cannot be opened, and the exit code |
| Fish.OnAfter | fish/blink.S:60-90 | For all 16-bit lengths, on after n ticks exactly when n mod (on + off) < on, and the exact countdown |
| Fish.StepFirst | fish/blink.S:105-300 | What an event elsewhere does to the first entry at a location: at most tick it |
| Fish.RemoveTakesOut | fish/blink.S:187-223 | A remove takes out the first entry at its location and leaves the others in order; at an absent location it changes nothing |
| Fish.TakenOutIsGone | fish/blink.S:214-223 | What is taken out is exactly one entry, and one that was alone at its location is not found any more |
| Fish.AddedIsFirst | fish/blink.S:151-162 | An add puts its entry, on and with a full countdown, in front of all others, and a find there meets it |
| Fish.StaysInStep | fish/blink.S:240-275 | Entries in step stay in step over every run that leaves both alone |
| Fish.SyncedStaysInStep | fish/blink.S:240-275 | A successful sync puts its entries in step, for every later run that leaves them alone |
| Fish.TickByte | fish/blink.S:66-86 | A tick changes the screen byte of an entry alone at its location exactly when the entry fires, to what its new status shows |
| Fish.RunAlone | fish/blink.S:49-99 | Over every run that leaves its location alone, the entry has ticked as often as the list, and from its first phase change on the screen shows it |
| Fish.ShowsAgainIff | fish/blink.S:49-99 | After such a run the screen shows the entry exactly if a phase has changed or it did before |
| Fish.SyncShowsIff | fish/blink.S:240-300 | Exactly when the screen shows the target of a sync, at once and after any run that leaves it alone |
| Fish.RunShowing | fish/blink.S:49-99 | An entry the screen shows stays shown over every such run |
| Fish.BlinksOnSchedule | fish/blink.S:49-184 | From its add on, the screen shows the on character exactly in the first phase of each period |
| Blink.BlinkList.constructor | fish/fish.c:160-170 | An empty list over a pool of free slots |
| Blink.BlinkList.Malloc | fish/fish.c:160-170 | The first free slot, or NULL exactly when none is |
| Blink.BlinkList.FindHelper | fish/blink.S:351-379 | The first node at a location, or NULL; the traversal ends |
| Blink.BlinkList.IoctlFind | fish/blink.S:302-349 | A copy of the first entry at a location, or -1 |
| Blink.BlinkList.IoctlSync | fish/blink.S:240-300 | Refines taking over the timing; -1 when either is missing; shows the off character |
| Blink.BlinkList.IoctlAdd | fish/blink.S:105-184 | Refines a push at the front; fails exactly for location >= 2000 or a full pool; location 0 leaves no list |
| Blink.BlinkList.ZeroLocationLoops | fish/blink.S:151-162 | Adding at location 0 and then again makes the list a cycle |
| Blink.BlinkList.IoctlRemove | fish/blink.S:187-237 | Succeeds exactly for a location that is present; then the first entry there is taken out, and exactly one slot occupied there is free and no other entry has changed |
| Blink.BlinkList.TakeOut | fish/blink.S:214-223 | One node is out of the list and its slot free |
| Blink.BlinkList.Predecessor | fish/blink.S:206-212 | The search for the predecessor ends at it |
| Blink.BlinkList.Unlink | fish/blink.S:214-223 | The list without one node |
| Blink.BlinkList.RtcTasklet | fish/blink.S:49-99 | Every entry ticks once, those that fire are shown, in list order; the traversal ends |
| Blink.BlinkList.TickEntry | fish/blink.S:64-86 | One entry's countdown and phase change |
| Blink.BlinkList.HandleAll | fish/blink.S:49-300 | List and screen follow the abstract run for every run without an add at location 0 |
| Blink.PushThreads | fish/blink.S:155-162 | Pushing a free slot keeps the list: distinct slots, exactly the occupied ones |
| Blink.UnlinkThreads | fish/blink.S:214-223 | Unlinking and zeroing a node keeps it too |
| Blink.FullIff | fish/fish.c:160-170 | No slot is free exactly when the list has as many entries as the pool |
| Blink.NoThread | fish/fish.c:160-175 | No list starts at a free slot |
| Memory.Memcpy | student-distrib/lib.c:431-468 | Exactly n bytes of a snapshot copy for every alignment, if no source byte is overwritten before it is read |
| Memory.MemcpyIsSnapshotIff | student-distrib/lib.c:431-468 | Within one memory memcpy is a snapshot copy, whatever the bytes, exactly when the overlap is safe or it moves one aligned dword |
| Memory.MemcpyWithin | student-distrib/lib.c:431-468 | What memcpy leaves at each address for every overlap |
| Memory.CopyBytes | student-distrib/lib.c:431-468 | The head and tail loops |
| Memory.CopyDwords | student-distrib/lib.c:431-468 | The dword body |
| Memory.CopiedTwice | student-distrib/lib.c:431-468 | Consecutive stretches of a safe copy make one, overlap included |
| Memory.Memset | student-distrib/lib.c:348-382 | The low byte at exactly n addresses, for every alignment |
| Memory.Memmove | student-distrib/lib.c:477-495 | A snapshot copy for every overlap in either direction |
| Numbers.NumeralRoundTrip | student-distrib/lib.c:280-310 | For every number and radix 2..36 the numeral parses back, in digits of its radix, without a leading zero |
| Numbers.NumeralFits | student-distrib/lib.c:121-166 | 32-bit numerals take at most 10, 8 and 32 digits |
| Numbers.DigitTable | student-distrib/lib.c:281 | The digits are those of the table, in upper case |
| Numbers.Strrev | student-distrib/lib.c:316-329 | Mirrors the string in place and touches nothing else |
| Numbers.PutDigits | student-distrib/lib.c:293-303 | The digits, least significant first |
| Numbers.Itoa | student-distrib/lib.c:280-310 | The numeral and a terminator, and nothing else |
| Numbers.UserStrrev | syscalls/ece391support.c:84-103 | The user library's reversal does what the kernel's does |
| Numbers.UserItoa | syscalls/ece391support.c:49-81 | The user library's itoa leaves the same numeral as the kernel's |
| Numbers.PaddedParse | student-distrib/lib.c:129-136 | Leading zeros do not change a numeral's value |
| Numbers.PrintHex8 | student-distrib/lib.c:128-137 | `%#x` prints exactly eight hexadecimal digits that denote the value |
| Numbers.PrintUnsigned | student-distrib/lib.c:121-150 | `%x` and `%u` print a numeral that parses back |
| Numbers.PrintSigned | student-distrib/lib.c:153-166 | `%d` reads back for every 32-bit integer, the smallest included |
| Rtc.ClearedIffPower | student-distrib/rtc.c:94 | f & (f - 1) is 0 exactly for powers of two, of any size |
| Rtc.AcceptedIff | student-distrib/rtc.c:87-105 | Accepted rates: powers of two, and also 0 and the smallest integer |
| Rtc.CountsDown | student-distrib/rtc.c:177-180 | A countdown falls by one per interrupt down to 0, whatever other terminals do |
| Rtc.ReadLasts | student-distrib/rtc.c:71-80 | A read is over exactly when 512/f interrupts have come, and stays over, in every interleaving |
| Rtc.BeatsPerSecond | student-distrib/rtc.c:71-80 | A loop of reads at rate f = 2^k up to 512 completes exactly f reads in every 512 interrupts, over any number of them, in every interleaving |
| Rtc.WrittenRateCounts | student-distrib/rtc.c:71-105 | A power of two that is written is the rate at which the terminal's next read waits, whatever the others do in between |
| Rtc.OpenedRateCounts | student-distrib/rtc.c:46-80 | After an open a read waits for 256 interrupts |
| Rtc.RefusedRateKeeps | student-distrib/rtc.c:94 | A refused rate changes nothing |
| Rtc.Driver.RtcOpen | student-distrib/rtc.c:46-51 | The terminal's rate becomes 2 and no other changes |
| Rtc.Driver.RtcWrite | student-distrib/rtc.c:87-105 | Accepts exactly the rates above, stores an accepted one as it is, and otherwise changes nothing |
| Rtc.Driver.RtcRead | student-distrib/rtc.c:71-80 | Starts the terminal's countdown at 512/f; faults at rate 0 |
| Rtc.Driver.RtcHandler | student-distrib/rtc.c:173-192 | Every running countdown falls by one |

## Left out

- Screen.ScreenShowsLayout: texts with backspaces, which the layout of a text does not describe. `Screen.PutAllConcat` and `Terminals.RunShows` cover those whose backspaces stay on the screen.
- Screen.PutAllConcat: a backspace at the top left corner. The code then stores outside the screen (`Screen.BackOnScreenIff`); `Screen.Put` does nothing there, and no method is proved to refine that case.
- Video.Console.HandleAll: runs in which a process or an erase writes a backspace at the top left corner or Enter finds the line buffer full (`Terminals.Safe`): there the code stores outside its arrays. `Video.Session`, `Video.Console.TerminalWrite` and `Video.Console.KeyboardHandler` leave out the same.
- Terminals.KeysAndReadsSafe: runs in which a process writes a backspace; `Terminals.CursorsStayIff` says which of them are safe.
- Terminals.RunShowsLayout: runs with lost writes, Ctrl-L or erasures on that terminal.
- Video.Console.TerminalRead: the wait for Enter; a read is one step that happens once the line has ended.
- Video.Console.Tick: the video half of `pit_handler`; `Machine.System.HandleTick` has the processes and both page tables, and `Machine.EventsMatch` ties the two.
- Machine.System.constructor: switches and writes between the three boot ticks.
- Machine.System.HandleAll: what is written; a write is its effect on the page table.
- Memory.Memcpy: overlapping copies that overwrite source bytes before reading them; `Memory.MemcpyWithin` has those.
- Processes.Session: execution of anything else before the three boot ticks. Whether a file is executable is a parameter; "shell" is taken to be.
- Processes.Kernel.Launch: descriptors (`FileSystem.Process.constructor`), loading, and the arguments.
- Processes.Kernel.Execute: splitting the command into a name and arguments, and loading the file; the caller's context is a parameter.
- Processes.Kernel.Halt: closing the descriptors, and the status handed to the parent. A root's halt and its new shell are one step.
- Grep.Grep: reading the arguments; the pattern is a parameter. `data[1024]` is uninitialised in the program and taken not to hold a newline, and files to hold no NUL; `Grep.StreamingIsGrepIff` is about such files.
- Grep.DoOneFile: the messages for failing reads and closes, which cannot happen here, and searching in standard input or in a directory.
- FileSystem.Process.Open: the clock device's own open, which is `Rtc.Driver.RtcOpen`.
- Cat.Cat: reading the argument; the name is a parameter.
- FileSystem.Process.Read: standard input, which is `Video.Console.TerminalRead`.
- Rtc.ReadLasts: the busy wait itself; a read is over when its countdown is 0.
- Interleavings inside a handler: each one is a single step.
- Scan codes: the keyboard starts from the decoded character. 0x3b to 0x3d always switch terminals, as in the code.
- Ports, interrupt controllers, the mouse, the time display and status bar, and the hardware cursor.
- Descriptor tables, booting, register switching, ELF loading and TLB flushes.
- Signals, `getargs`, `ece391emulate.c`, and the demonstration and test programs.
- NULL buffers, which the system calls refuse; buffers are arrays here.
- `memset_word`, `memset_dword` and the kernel's `strcpy`: nothing modelled here calls them. `printf`'s walk over its format, and `%c` and `%s`, which pass their argument on unchanged.

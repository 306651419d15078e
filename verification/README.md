# philix, Winky and Inky: a model and its proofs

philix is the host side of a console for a bare-metal kernel on a Xeon Phi card. The kernel
("Winky") draws on a VGA text framebuffer in card memory and posts an update for each change through
two shared registers, AVAIL and DRAWN; the host maps that memory, handles the update, keeps the rows
that scroll off the top in a bounded history, lets the user scroll over it and dumps it to a file. The
boot loader ("Inky") moves the boot image, loads the kernel's ELF64 file and relocates it. This project
models both, and the message ring and the small arithmetic that Inky ships with.

Run `dafny verify dfyconfig.toml`.

| file | what it holds |
|---|---|
| `Vga.dfy`, `Renderer.dfy` | cells and rows; the reference renderer: split at newlines, fold at 80 columns |
| `GuestOps.dfy`, `RowReports.dfy`, `PostOrder.dfy`, `Terminal.dfy` | the guest terminal on values, as the list of shared-memory actions it performs; the rows it reports as finished; what it posts, in which order, and what is on the screen then; the class that updates the framebuffer in place |
| `History.dfy`, `Sessions.dfy`, `Console.dfy` | the scroll-back history, the window over it, whole sessions of saving and scrolling, and the dump: on values, and as a doubly linked list of heap nodes |
| `Handshake.dfy`, `Delivery.dfy` | guest and host as processes taking atomic steps on shared memory; what holds in every run, and in every run without a poll timeout |
| `DueRows.dfy`, `SavedRows.dfy`, `Progress.dfy` | over all runs: exactly when the history comes out right; that the guest is never blocked, and exactly when the host can still leave |
| `RemoteConsole.dfy`, `TimeoutHarm.dfy` | the three layers together, end to end, and what a timeout can do to them |
| `Memory.dfy`, `Relocation.dfy`, `ElfLoader.dfy`, `Loader.dfy` | memcpy and memset, relocation, segment loading with the linear allocator, ramdisk move and entry point |
| `Ump.dfy` | the UMP ring as a class, sender and receiver interleaved as a state machine, and the class performing the machine's steps |
| `Caddr.dfy`, `BitAlign.dfy`, `ElapsedTime.dfy` | capability addresses, aligned blocks, the elapsed-time counter |
| `Powers.dfy`, `Seqs.dfy`, `Widths.dfy`, `Wrappers.dfy` | helpers |

The framebuffer is 80 by 25 as in the source. The history bound is a parameter `cap` of at least 2
(100000 in the source). Memory accesses are sequentially consistent. A character is any 8-bit pattern;
`EntryRoundTrip` says what a cell keeps of it.

## What the code does that its authors may not expect

Each of these is stated as an exact condition.

- A host poll that times out sets DRAWN for nothing, and the guest may take that for the acknowledgement of
  its next post. The screen does not suffer. The history does exactly when a scrollup is overwritten in
  AVAIL, a cell of a row no longer is what it was when it is copied, or a row is still on its way
  (`EndToEnd`; the converse needs a history with room for every row, since a full one can look the same
  with a row missing). Every text that scrolls has runs with a single timeout that come to harm: in
  `TimeoutLosesRow` the scrollup is lost, in `StaleAcknowledgement` no post is lost and the second row is
  saved in place of the first.
- A timeout can also cost the shutdown: the host can still leave its loop and write its file exactly when
  the post was not overwritten, and is not in AVAIL with the host on its way to clear it
  (`CanLeaveIffNotDeaf`); `TimeoutDeafens` is such a run.
- At shutdown a text of at most 25 rows has no history, and the dump dereferences a null `line_hist`
  (`Dispatch`, `ShutdownDump`).
- Neither the window nor the dump ever shows the newest history row. Running into the oldest row leaves
  `line_idx` one ahead of `win_ptr`, after which, up to `line_idx` 25, one row of the screen is stale. A row saved while
  scrolled moves `win_ptr` alone.
- `win_ptr` dangles after a scrollup exactly when the history was full and it pointed at the oldest row:
  after a session, exactly when too many rows were saved since its last scroll (`DanglesIff`).
- `elf_virtual_base64` returns the least address exactly when no segment is linked at 0, or the last is.
- `linear_alloc` computes its page count and byte count in 32 bits: the block is large enough exactly for
  sizes up to 4 GiB less a page.
- The ramdisk move trips memcpy's overlap assertion exactly outside the ranges in `MoveOkIff`.
- `ump_chan_state_init` accepts a buffer of a multiple of 65536 messages and leaves a channel without
  slots.
- A root CNode of 2^32 slots gets zero valid bits.

The comment in `elf64_relocate` that RELATIVE must add to the word in place is followed; the comment of
`bitaddralign` asks for 2^x < n, but the code allows 2^x = n, and the code is followed.

## Model

| member | source | states |
|---|---|---|
| Vga.EntryRoundTrip | winky/cga.c:14-20 | the host always reads back the character of a cell; the colour exactly when the character is 7-bit or the colour is all ones (sign extension of `char`) |
| Renderer.LinesSnoc | winky/cga.c:107-135 | folding the whole text at 80 columns equals extending the page one character at a time |
| Renderer.LinesAre | winky/cga.c:107-135 | what the page is, line by line: a newline ends the row it stands in, and so do 80 characters without one, the next row beginning empty |
| GuestOps.ExecScroll | winky/cga.c:83-104 | the recorded actions of a scroll - post, 480 word copies, blanks, post - amount to saving row 0 and shifting every row up |
| GuestOps.ShowsPutchar | winky/cga.c:107-135 | putchar keeps the screen and the cursor equal to the last rows of the reference page, everything at and after the cursor blank, and scrolls exactly when a row leaves the top |
| GuestOps.ProgramRenders | winky/cga.c:38-135 | executing the actions of any text yields exactly its scrolled-off rows and its last 25 rows |
| GuestOps.ProgramPrefix | winky/cga.c:107-135 | the actions for a prefix of the text are a prefix of the actions |
| Terminal.TermInfo.TermInit | winky/cga.c:38-59 | the in-place loops blank the screen, home the cursor and touch nothing past the framebuffer; the actions performed end with the redraw, which `ProgramPosts` pins |
| Terminal.TermInfo.CopyWords | winky/cga.c:86-96 | the forward in-place copy by 64-bit words reads only cells not yet overwritten, so it is the shift by one row |
| Terminal.TermInfo.TermScrollup | winky/cga.c:83-104 | memory ends as the row shift with a blank last row, the registers behind the framebuffer untouched, and exactly the actions of a scroll were performed |
| Terminal.TermInfo.Putchar | winky/cga.c:107-135 | the object's state and actions follow the value-level putchar, whatever the state |
| Terminal.TermInfo.BootAndPrint | winky/cga.c:38-170 | after term_init and term_print the screen and cursor are the reference rendering of the text and the actions are its program |
| History.PushAllKeepsNewest | src/philix.c:605-658 | after any number of saved rows the newest min(rows, cap) are kept, newest first |
| Console.Cons.KillLast | src/philix.c:624-633 | unlinking the tail leaves a chain without it, and the new node's prev is the new tail |
| Console.Cons.LinkFirst | src/philix.c:646-654 | relinking keeps next and prev inverse and makes the new node the head |
| Console.Cons.HandleScrollup | src/philix.c:605-658 | the list stays well formed (hist_cnt distinct nodes, prev inverse of next, head's prev the tail), gains the framebuffer's first row in front, drops the oldest when full; win_ptr survives exactly when it did not point at the dropped node |
| Console.Cons.WalkBack | src/philix.c:371-393 | the loop ends with line_idx and the node both advanced by as many steps as the request, the history and the break at the oldest node allow |
| Console.Cons.WalkForward | src/philix.c:395-405 | the loop steps back towards the head, around to the tail when it passes it |
| Console.Cons.ScrollOutputWin | src/philix.c:358-411 | any scroll from any valid window equals the closed form Scroll, and keeps 0 <= line_idx <= hist_cnt |
| Console.Cons.ScrollPage | src/philix.c:591-602 | from a window in step, 1 moves line_idx 25 rows back or to the oldest row; from any window, 0 moves it 25 rows forward or to the bottom, and anything else leaves the window alone |
| Console.Cons.ScrollTop | src/philix.c:413-420 | the window goes to the tail with line_idx = hist_cnt |
| Console.Cons.ScrollBottom | src/philix.c:422-427 | the window goes to NULL and 0 |
| Console.Cons.DrawOutputWin | src/philix.c:305-355 | the screen becomes Window of history, framebuffer, view and the old screen; in step or at the bottom every row holding 7-bit text shows that text, printable characters as they are, `@` for the others and spaces after them, in its colour |
| Console.Cons.OutputHist | src/philix.c:173-194 | the walk ends, and writes the rows oldest first without the newest |
| Console.Cons.DumpConsole | src/philix.c:531-572 | the file is that history followed by the 25 framebuffer rows |
| Console.Cons.Dispatch | src/philix.c:677-710 | which updates change the history and how, and what each turn of the loop comes to |
| Console.Cons.Act | src/philix.c:413-427 | one event of a session does to the list and the window what the session says, also when win_ptr already dangles |
| Console.Play | src/philix.c:358-658 | a console put through any allowed session of saved rows and line, page, top and bottom scrolls ends with the window the session says |
| Sessions.DriftStep | src/philix.c:358-427 | exactly which events make win_ptr and line_idx drift apart, and by how much |
| Sessions.Session | src/philix.c:358-658 | after any session at most cap rows, 0 <= line_idx <= rows, and line_idx never more than one ahead of win_ptr |
| Sessions.DanglesIff | src/philix.c:625-633 | a session leaves win_ptr dangling exactly when the row its last scroll left it on is no longer among the newest cap |
| Sessions.SomeSessionDangles | src/philix.c:625-633 | filling the history, scrolling to its top and saving one more row does |
| History.ScrollKeepsInStep | src/philix.c:363-411 | from in step, a scroll stays in step exactly when line_idx stays below the number of rows, and otherwise stops at the oldest row one ahead |
| History.ScrollAllInStep | src/philix.c:363-411 | any session of scrolls that keeps line_idx below hist_cnt keeps win_ptr at distance line_idx from the head |
| History.UpDownRoundTrip | src/philix.c:363-411 | k up and k down returns to the same place exactly when the oldest row was not reached (or the history is one row) |
| History.UpDownSameScreen | src/philix.c:430-456 | and then the same screen is shown |
| History.SavedRowKeepsInStep | src/philix.c:605-658 | a row saved while in step keeps the window in step exactly when win_ptr is NULL |
| History.WindowInStep | src/philix.c:338-456 | every row of the screen is written: history rows line_idx down to 1, then the framebuffer from its top |
| History.WindowShowsText | src/philix.c:306-320 | the same in terms of the text: column j of a row shows character j of its line |
| History.WindowOneAhead | src/philix.c:338-456 | one ahead, rows come out right but a mixed screen leaves row line_idx - 1 as it was |
| History.RedrawIsTotal | src/philix.c:430-456 | a redraw leaves nothing of the old screen exactly when the head of the list does not cut the history part short |
| History.DumpMissesNewestRow | src/philix.c:173-194 | the dump is the transcript without exactly the row that scrolled off last |
| Delivery.EveryRunKeepsLedger | src/philix.c:199-211 | in every run, timeouts included, posts are picked up in strictly increasing order, never twice, and each is picked up, overwritten or still in AVAIL |
| Delivery.LossesAreOverwrites | src/philix.c:679-708 | a step loses a post exactly when it clears or re-posts AVAIL while an update not yet picked up is in it |
| Delivery.ExactDelivery | src/philix.c:674-715 | what the host picks up is all that was posted, each once and in order up to one still in AVAIL, exactly when nothing was overwritten |
| Delivery.EveryRunIsDriven | winky/xeon_phi.c:100-168 | in every run, timeouts included, the framebuffer, the LINE register and the posts are those of the guest running alone |
| Delivery.RunsInLockstep | winky/xeon_phi.c:108-168 | without a timeout, at every instant of every interleaving: framebuffer, history, posts and handled updates are those of the guest running alone |
| Delivery.TimelyDelivery | winky/xeon_phi.c:108-168 | without a timeout the handled updates are the first posts, at most one is outstanding, and framebuffer and registers are as posted from the post until the guest has taken DRAWN |
| DueRows.EveryRunIsRecorded | winky/xeon_phi.c:130-143 | in every run the rows on top of the screen when scrollups are posted are those of the guest running alone |
| SavedRows.EveryRunIsAccounted | src/philix.c:199-218 | in every run the history is no longer than the rows due so far, shorter once a scrollup was lost, and otherwise right exactly when every cell was copied in time |
| SavedRows.RightExactlyWhenAllSaved | src/philix.c:674-715 | over all runs: the history holds the newest rows due if no scrollup was lost, no cell copied too late and no row is on its way, and, as long as they fit, only then |
| SavedRows.TimelyRunsSaveAll | src/philix.c:674-715 | without a timeout none of the three happens, whenever the guest is not waiting |
| Progress.GuestCanGoOn | winky/xeon_phi.c:108-168 | no deadlock: from every state of every run, timeouts included, the guest can go on to any later point of its program, its end included |
| Progress.TimelyRunCanComplete | src/philix.c:674-715 | from every state of every run without a timeout, guest and host can both complete, the host having received the shutdown |
| Progress.CanLeaveIffNotDeaf | src/philix.c:689-708 | over all runs: some continuation lets the host leave its loop exactly when the shutdown was not overwritten and is not about to be |
| RemoteConsole.EndToEnd | winky/cga.c:83-135 | whatever the interleaving and whatever timed out, after any prefix of any text: the host's history followed by the framebuffer is the reference rendering of that prefix, cut to the last cap scrolled rows, if no scrollup was lost, no cell copied too late and no row is on its way; and only then if the rows fit |
| RemoteConsole.EndToEndTimely | src/philix.c:674-715 | in every run without a timeout it is that rendering |
| RemoteConsole.FramebufferIsRendered | winky/cga.c:83-135 | the screen is the reference rendering in every run, unconditionally |
| RemoteConsole.HostShowsText | src/philix.c:305-355 | in every run the host's window at the bottom shows the last 25 rows of a 7-bit text, character by character, whenever the guest is between two characters |
| RowReports.ProgramReports | winky/cga.c:107-135 | for any text the LINE reports name every finished row exactly once and in order, under the screen row it then has, each after its row was written to the register |
| PostOrder.ProgramPosts | winky/cga.c:38-135 | for any text the guest posts a redraw, then one report for each finished row, followed from the 25th on by a scrollup and a redraw; and at each post the screen is as it should be: the reported row complete in its place, at a scrollup the row due at the top, at a redraw the page so far |
| RemoteConsole.LineAssertionHolds | src/philix.c:574-588 | in every run, timeouts included, the host handling a line update finds a row below 25 in the register, as it asserts |
| RemoteConsole.LineUpdateNamesRow | src/philix.c:574-588 | in every run without a timeout it finds the row that this very post reported |
| RemoteConsole.ExitIsComplete | src/philix.c:689-695 | the host leaves its loop only after the whole program, with the framebuffer complete, and the history too if no scrollup was lost and no cell copied too late |
| RemoteConsole.ShutdownDump | src/philix.c:531-572 | if no scrollup was lost and no cell copied too late, the file written at shutdown is the text folded at 80 columns, cut to what is kept, minus the row that scrolled off last; the history is empty exactly for texts of at most 25 rows |
| RemoteConsole.ProgramShutsDownLast | winky/xeon_phi.c:116-121 | every text, with or without the shutdown after it, is a program to which the Progress rows apply |
| TimeoutHarm.TimeoutLosesRow | src/philix.c:681-708 | every text that scrolls has a run with one timeout after which history and screen no longer make up the text |
| TimeoutHarm.StaleAcknowledgement | src/philix.c:199-211 | every text that scrolls has a run with one timeout that loses no post and saves its second row in place of the first, which shows exactly when the two rows differ |
| TimeoutHarm.TimeoutDeafens | src/philix.c:199-211 | every text has a run with one timeout after which the host can no longer receive the shutdown |
| Memory.Memcpy | inky/lib.c:40-53 | under its own assertion, the byte loop copies the original bytes and changes nothing else |
| Memory.Memset | inky/lib.c:30-38 | fills exactly the range |
| Relocation.Relocate | inky/elf64.c:220-267 | the in-place loop applies the entries in order and stops at the first unsupported one with those before it applied; with targets apart, the eight bytes at each target are those of symbol value + addend + displacement (type 1) or of the number in place + distance moved (type 8), modulo 2^64 |
| Relocation.RelocatedWords | inky/elf64.c:240-258 | the same words for the whole table as a function of the image, each written out byte by byte |
| ElfLoader.LoadsAreTypeOne | inky/elf64.c:387-389 | the segments loaded are exactly the headers of type 1 |
| Relocation.TargetsRelocated | inky/elf64.c:228-266 | with disjoint targets every target word is computed from the original image |
| Relocation.PathIndependence | inky/elf64.c:220-267 | relocating by way of an intermediate address gives the image of relocating once, modulo 2^64 |
| Relocation.OrderIndependence | inky/elf64.c:220-267 | any permutation of a table with disjoint targets gives the same image |
| Relocation.RelocatedForgets | inky/elf64.c:240-258 | with dst = src, images that differ only where the table writes become equal, whatever its order and overlaps |
| ElfLoader.AllocHolds | inky/loader.c:111-125 | a block holds its segment exactly up to 4 GiB less a page, and wastes less than a page |
| ElfLoader.AllocationsAligned | inky/loader.c:111-125 | allocations of a load are page-aligned |
| ElfLoader.AllocationsDisjoint | inky/loader.c:111-125 | they increase and are disjoint |
| ElfLoader.CongruentIffContiguous | inky/loader.c:111-125 | all segments are displaced alike exactly when the file links each at the end of the previous one's pages |
| ElfLoader.LoadIsOneRelocation | inky/elf64.c:386-414 | relocating everything after every segment, over partly loaded memory, equals loading all segments and relocating once |
| ElfLoader.LoadTouchesOnlySegments | inky/elf64.c:386-414 | nothing outside the segments and the relocated words changes |
| ElfLoader.CopyHoldsFileByte | inky/elf64.c:386-414 | after the whole load, relocations in between included, every segment holds its file bytes followed by zeroes, off the words relocated with constants |
| ElfLoader.Bootloader.LinearAlloc | inky/loader.c:111-125 | returns the old pointer and advances it by the 32-bit page arithmetic |
| ElfLoader.ReachedImage | inky/elf64.c:386-414 | what the load leaves: with a relocation section and a symbol table, and segments displaced alike, each constant stands where its segment went and is symbol value + addend modulo 2^64, and (the file lying apart from where its segments go, every constant inside one) every other byte of a segment is the file's, or zero past the file's part; with either missing, just the loaded segments; outside them memory is as it was |
| ElfLoader.Bootloader.ElfLoad | inky/elf64.c:386-422 | the header loop leaves that image, and stops exactly when a segment is loaded and the table has an entry of another type than 0, 1 and 8, or a symbol out of range |
| Loader.MoveOkIff | inky/loader.c:222-230 | memcpy's assertions hold on both branches exactly for targets up to a page past the ramdisk or past the bounce area (with the empty ramdisk spelled out) |
| Loader.MoveOkWrappedIff | inky/loader.c:222-230 | the same when the 32-bit bounce address wraps |
| Loader.MoveRamdisk | inky/loader.c:222-230 | the original bytes arrive at the target and only target and bounce area change |
| Loader.ElfVirtualBase | inky/elf64.c:79-98 | the loop computes BaseOf of the PT_LOAD addresses |
| Loader.BaseIsLeastIff | inky/elf64.c:79-98 | that is the least address exactly when 0 is not among them or comes last |
| Loader.EntryIsCopyIff | inky/loader.c:305-326 | the translation finds the loaded copy of an address exactly when the base subtracted is the first segment's |
| Loader.EntryAddressesLoadedByte | inky/loader.c:265-326 | kernel_entry addresses the loaded copy of the byte at e_entry |
| Loader.LinearPlacement | inky/loader.c:258-269 | with the linear allocator a page-contiguous file is placed congruently and without overlap |
| Loader.LoadKernel | inky/loader.c:264-332 | load and translation composed: for a file laid out page by page from a non-zero address, memory at the returned entry point holds the file's byte at e_entry, or zero when that lies past the file's part of its segment |
| Ump.UmpChan.Init | inky/include/barrelfish/ump_impl.h:113-140 | error codes, the 16-bit slot count and when it leaves no slots, headers cleared for an incoming channel |
| Ump.PollNext | inky/include/barrelfish/ump_impl.h:149-158 | in every state of two ends on one buffer, poll returns a slot exactly when the next message in order is published, and then that message is in it |
| Ump.UmpChan.Recv | inky/include/barrelfish/ump_impl.h:168-181 | poll, and advance exactly on success |
| Ump.UmpChan.GetNext | inky/include/barrelfish/ump_impl.h:192-209 | hands out the slot and epoch bit and advances |
| Ump.EveryRun | inky/include/barrelfish/ump_impl.h:149-209 | the ring invariant over every interleaving of reserve, word writes, publish in any order, and receive |
| Ump.Fifo | inky/include/barrelfish/ump_impl.h:149-209 | poll succeeds exactly when the next message is published; what was delivered is a prefix of what was sent; at most bufmsgs wait |
| Ump.FifoStep | inky/include/barrelfish/ump_impl.h:168-209 | every step is a step of a bounded FIFO: receive takes the head, publish appends, nothing else shows |
| Ump.DeliveredAsWritten | inky/include/barrelfish/ump_impl.h:168-209 | in every run, each word of the k-th message received is the value last written to it through the slot handed out for it, and its header the one it was published with |
| Ump.DeliveredAsHandedOut | inky/include/barrelfish/ump_impl.h:168-209 | and a word never written is what the slot held when it was handed out |
| Ump.FlowControlIff | inky/include/barrelfish/ump_impl.h:192-209 | using the next slot keeps the waiting message visible exactly when fewer than bufmsgs messages are outstanding |
| Ump.HeldMessageIntact | inky/include/barrelfish/ump_impl.h:168-181 | a received message stays in its slot until the slot is reserved again |
| Ump.Connect | inky/include/barrelfish/ump_impl.h:113-140 | initialising both ends puts them in the state machine's start state, for any buffer contents, unless the size is refused or comes to no slots |
| Ump.SendSlot | inky/include/barrelfish/ump_impl.h:192-209 | ump_impl_get_next performs the machine's reserve step |
| Ump.SendHeader | inky/include/barrelfish/ump_impl.h:192-209 | one write of the header with the epoch bit handed out performs the publish step |
| Ump.RecvNext | inky/include/barrelfish/ump_impl.h:168-181 | ump_impl_recv performs the receive step: it takes the head of the queue, and nothing exactly when the queue is empty |
| Caddr.CapAt | inky/include/barrelfish/caddr.h:73-102 | the address of a capability at a path is the path's slots concatenated, left-aligned in 32 bits |
| Caddr.AddressesDistinct | inky/include/barrelfish/caddr.h:93-102 | paths of one shape have the same address exactly when they are the same path |
| Caddr.CnodeAddrIsParent | inky/include/barrelfish/caddr.h:119-161 | get_cnode_addr in a built CNode is the parent capability's address shifted by its unused bits |
| Caddr.RootValidBitsIff | inky/include/barrelfish/caddr.h:73-82 | the valid bits of a root slot are right exactly below 32 bits |
| BitAlign.Log2Floor | inky/include/kernel.h:73-79 | the floor of the base-2 logarithm, zero for zero |
| BitAlign.BitAddrAlign | inky/include/kernel.h:81-93 | the greatest x with 2^x <= n and 2^x dividing the base, for all n > 0 |
| ElapsedTime.Counter.Read | winky/xeon_phi.h:141-152 | whatever the counter does between reads, the result is its value at one of the reads made, and the retry loop ends |
| ElapsedTime.Counter.GetCycles | winky/xeon_phi.h:154-157 | the same for the cycle count |
| ElapsedTime.Counter.ReadTwice | winky/xeon_phi.h:141-157 | successive reads never decrease |
| ElapsedTime.SingleReadTears | winky/xeon_phi.h:147-151 | one pass without the retry is right exactly when the high half did not move |

## Left out

- Curses windows, colours, popups, terminal setup, key reading, signal handlers: user interface. A drawn screen is 25 rows of glyphs.
- `handle_char_update`: the terminal never posts CHAR; its registers are in the model and proved stable, the one-cell draw is not.
- Console.Cons.HandleScrollup: `malloc` does not fail; a freed node is one that is no longer in the list.
- Console.Cons.ScrollOutputWin: requires a non-empty history, as the source asserts, and a window that does not dangle.
- Console.Cons.DumpConsole: the file is an output sequence; its name and opening are not modelled.
- Handshake: the poll's delay counter is a step that may happen whenever AVAIL reads as no update; `usleep` and `msync` have no effect.
- ElfLoader.Bootloader.ElfLoad: file and header checks, PT_TLS bookkeeping and the choice of relocation section are taken as done; headers, table and symbols are values rather than bytes of the image; memory is not described when the loader has stopped at an unsupported entry, which in the source never returns.
- Loader.LoadKernel: needs the file to lie apart from where its segments go, no relocation constant in the file or on the entry byte, and segments of at most 4 GiB less a page.
- Loader.MoveRamdisk: the command line copy and the multiboot structures around it are plumbing.
- Ump.UmpChan.Init: an out-of-memory or misaligned view of the buffer beyond the two checks is not modelled; memory ordering is sequentially consistent.
- ElapsedTime.Counter.Read: the counter neither wraps nor runs backwards.
- Booting the card, sysfs, SBOX interrupts, status prints, delays, the multiboot generator and the patcher: no functional content here.

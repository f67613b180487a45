# RO-DOS kernel: a verified model

This project models the stateful parts of the RO-DOS kernel in Dafny and proves what they keep over every
run: the VirtIO network receive queue, the TCP/IP stack with its DNS and DHCP codecs and checksums, the
file table that `commands.c` keeps on disk, the text console with its scrollback, the kernel heap, the
mouse interrupt ring with its packet decoder, and the number and string routines of the C library.

Each part has the same shape. A specification says what the part is for, in terms with no buffers and no
wrap-around (a queue of frames, a byte stream, a map from paths to files, a terminal that never forgets a
line, a tiling of memory by blocks). A machine or a set of functions does what the code does, step by step,
with 16-bit and 32-bit arithmetic written out. A class with methods and loops does it in place, as the C and
assembly code does. Lemmas connect the three for all inputs and all runs.

| files | part |
|---|---|
| `Machine` | bytes, wrap-around, packet bytes |
| `ReceiveChannel`, `VirtioRx`, `WifiDriver` | the receive queue as a channel, as shared memory, as code |
| `Tcp`, `TcpWire`, `TcpStack` | the connection as a machine, its segments as bytes, the code |
| `Checksum`, `Dns`, `Dhcp` | checksums and codecs |
| `FileStore`, `FileCommands`, `FileRuns`, `FilePaths`, `FileSystem` | save and load, the commands, runs with reboots, the paths and values of each command, the code |
| `Terminal`, `TerminalText`, `ConsoleDriver` | console and scrollback against an unbounded terminal, the text on display, the code |
| `Heap`, `HeapFree`, `HeapList`, `HeapRuns`, `KernelHeap` | allocation, release, the free list after a release, runs of both, the code |
| `MouseRing`, `MouseDriver` | ring and decoder under preemption, the code |
| `Numbers`, `Tokenizer` | library routines |

`dafny verify dfyconfig.toml` checks the whole project.

Where the code falls short of what one would expect of it, the model follows the code, a lemma shows the
failure, and another gives the exact condition under which the code does what it should:

- `kmalloc` subtracts sizes as unsigned numbers before it compares them, so a block that fits but is less than
  20 bytes larger than the request is split into a block of almost 4 GiB (`Heap.AllocateIsSoundIff`); so it is
  with a request for 988 bytes on a fresh heap of 1024 (`Heap.AlmostWholeHeap`).
- `kfree` puts a block at the head of the free list although a block allocated by splitting is still on it,
  and the list becomes a cycle; one allocation and its release are enough (`HeapRuns.ReleaseAfterOneLoops`).
  `HeapList.ListEndsIff` says in every branch when the list still ends, and `HeapList.ReleaseIsSoundIff` when
  the heap is still sound. Over all runs from `mem_init`, `kfree` leaves a consistent heap exactly when it is
  given the one block that was handed out as a whole (`HeapRuns.RunIsSoundIff`, `HeapRuns.OneReleasable`).
- `kfree` merges a block with itself when its free right neighbour leads back to it
  (`HeapFree.MergedWithItself`), and the blocks that are left tile the heap exactly when none does
  (`HeapFree.KfreeTilesIff`). Two allocations from a fresh heap, released last first, lead there
  (`HeapRuns.TilingBreaks`): the first block then claims 2028 bytes of a heap of 1024, and the next request for
  1500 stores a header outside the heap (`HeapRuns.HeaderOutsideHeap`). With a third allocation of 28 bytes the
  doubled block ends at another block, so that the heap is tiled again and passes the heap check, with the
  third payload, still live, inside a free block (`HeapRuns.LiveInsideFree`).
- `kmalloc` of a size above 2^32 - 4 rounds to zero (`Heap.AlignCovers`).
- `itoa` is to print negative numbers as unsigned ones in bases other than 10, but keeps them in a signed
  variable and prints characters below '0' (`Numbers.PrintedIsIntendedIff`), a slash for -1 in base 16
  (`Numbers.MinusOneInHex`).
- `sqrt` divides by zero for 2^32 - 1 and for no other number (`Numbers.Sqrt`).
- `tcp_process` does not compare sequence numbers. The accepted bytes are those at offsets 0, 1, 2, ... of the
  peer's stream exactly when every segment accepted started at `rcv_nxt` (`Tcp.InOrderIffAllDue`); a segment
  that arrives twice breaks that (`Tcp.RetransmissionBreaksOrder`, `Tcp.DuplicatedByte`).
- The mouse ring has no check for being full: the byte that makes 256 wait makes it look empty
  (`MouseRing.FullRingLooksEmpty`), and the next one destroys an unread byte unless it brings the same one
  (`MouseRing.UnreadKeptIff`).
- `mouse_poll` takes each motion byte as a signed one and does not look at the sign bits of the first byte, so that
  motion is read as reported exactly between -128 and 127 (`MouseRing.MotionReadIff`); 200 to the right moves the
  pointer 56 to the left (`MouseRing.FastMotionTurns`).
- Output while scrolled back keeps ring and live screen in step with the terminal exactly when it changes
  nothing (`Terminal.OutputKeptIff`); a line feed that scrolls never does (`Terminal.LineFeedHarms`), and what
  the ring gets is the line on display with its mark (`Terminal.ScrollCapturesDisplay`).
- A path of more than 55 characters is cut when stored and compared uncut, so creating it twice makes two
  entries of one name (`FileRuns.UniqueIffPathFits`).
- Contents saved under the name of a directory do not come back after a reboot
  (`FileRuns.ContentsSurviveIffFile`), and a file saved with more than 4096 bytes comes back with a slot that
  claims more than its buffer holds (`FileRuns.SlotsFitIffSmall`).
- A current directory of just `C:` comes back as `C:\` (`FileStore.DirRestoredIff`). `CD` never sets one: over
  all runs the directory starts with `C:\` (`FileRuns.DirKeeps`).
- A host name with an empty label ends at that label when it is read back (`Dns.NameRoundTrip`), as "a." does
  (`Dns.FinalDot`).
- A DHCP address option of fewer than four bytes takes the missing ones from what follows it
  (`Dhcp.ReadsBack`): a mask of three bytes before the router's option gets that option's code as its fourth
  (`Dhcp.ShortMask`). The value is recovered exactly when it is long enough or pads follow it
  (`Dhcp.ValueRecoveredIff`).

Code and comment disagree in one place: the default netmask of `src/dhcp_client.c:252` is 0x00FFFFFF where the
comment says 255.255.255.0. The model has the value of the code.

## Model

| member | source | states |
|---|---|---|
| `ReceiveChannel.RunKeepsInv` | src/rust_driver_stubs.c:277-355 | over every interleaving of driver and device steps: each of the four buffers is in exactly one of available, held, used and driver; the frames answered so far are the completed ones cut as `Deliver` says; the driver's place in its work matches the frame it took |
| `ReceiveChannel.StepKeepsInv` | src/rust_driver_stubs.c:277-355 | the same for one step from any state in order |
| `VirtioRx.InitRefines` | src/rust_driver_stubs.c:441-459 | the set-up of descriptors, available ring and counters is the start of the channel, whatever the buffers hold |
| `VirtioRx.StepRefines` | src/rust_driver_stubs.c:289-355 | every micro-step on rings, 16-bit counters, descriptors and buffers is the channel's step |
| `VirtioRx.RunRefines` | src/rust_driver_stubs.c:277-355 | shared memory and counters stand for the channel after every run, across any number of index wraps |
| `VirtioRx.IndicesExact` | src/rust_driver_stubs.c:294-300 | the wrapped index differences are the true queue lengths, and the wrapped counters select the true slots |
| `VirtioRx.UnreadSlotsSurvive` | src/rust_driver_stubs.c:325-349 | no step of either side overwrites a ring entry that the other side has not read, nor a used entry that is not published yet |
| `VirtioRx.BuffersHaveOneOwner` | src/rust_driver_stubs.c:277-355 | in every reachable state the 16-bit indices give the queue positions, each buffer has exactly one owner as read off the rings there, and between calls `rx_avail_idx - rx_last_used` is 4 modulo 2^16 |
| `VirtioRx.FramesDelivered` | src/rust_driver_stubs.c:289-355 | the frames returned are exactly the completed frames longer than 10 bytes, in order, once each, without header, cut to `max_len`, byte for byte |
| `VirtioRx.CopyStaysInside` | src/rust_driver_stubs.c:334-342 | in every reachable state the copy loop reads only inside its buffer |
| `WifiDriver.Nic.constructor` | src/rust_driver_stubs.c:441-459 | after the set-up loop every descriptor describes the buffer of its number, all four are on offer, nothing is used, and the state is the start of the interleaved machine |
| `WifiDriver.Nic.TakeUsed` | src/rust_driver_stubs.c:289-313 | with the device at work between any two accesses: a completion that is published when the used index is read is taken, and none exactly when there is none then |
| `WifiDriver.Nic.ResetDescriptor` | src/rust_driver_stubs.c:315-335 | the descriptor is what it was at set-up and the length to copy is the frame's without header, cut to the limit |
| `WifiDriver.Nic.CopyOut` | src/rust_driver_stubs.c:337-341 | the caller's buffer gets the frame's bytes and nothing else in it changes |
| `WifiDriver.Nic.Requeue` | src/rust_driver_stubs.c:343-349 | slot, counter and published index, in that order, give the buffer back |
| `WifiDriver.Nic.WifiRecv` | src/rust_driver_stubs.c:277-355 | 0 and no change for an uninitialised driver, a null buffer or a limit of 0; otherwise, with a completion published when the used index is read, exactly that one is consumed and what is returned is its bytes past the header cut to `max_len`, or 0 if it has none; with nothing published then, 0 and nothing consumed; no byte past the result is written |
| `Tcp.RunKeepsInv` | src/tcp_ip_stack.c:742-958 | over every run of arrivals, reads, sends and closes: `rx_processed <= rx_len < 16384`, `has_data` iff bytes are unread, `rcv_nxt` = peer ISN + 1 + `rx_len` (+ 1 after FIN) modulo 2^32, bytes returned are a prefix of the accepted payloads |
| `Tcp.StepKeepsInv` | src/tcp_ip_stack.c:742-813 | the same for one event |
| `Tcp.ReturnsStreamPrefix` | src/tcp_ip_stack.c:742-958 | when every arriving segment starts at `rcv_nxt`, the bytes returned are a prefix of the peer's stream |
| `Tcp.StartsAtNextIff` | src/tcp_ip_stack.c:783-796 | a segment of the peer's stream starts at `rcv_nxt` exactly when its offset is the number of bytes accepted |
| `Tcp.InOrderIffAllDue` | src/tcp_ip_stack.c:742-813 | over every run: the stream offsets of the accepted bytes are 0, 1, 2, ... exactly when every segment accepted started at `rcv_nxt`, which the code does not test |
| `Tcp.AcceptedAtOffsets` | src/tcp_ip_stack.c:783-796 | over every run of segments of a stream: each accepted byte is the stream's byte at the offset logged for it |
| `Tcp.RetransmissionBreaksOrder` | src/tcp_ip_stack.c:783-796 | after any run, a segment accepted twice puts its offsets into the buffer twice, and the offsets are out of order |
| `Tcp.DuplicatedByte` | src/tcp_ip_stack.c:783-796 | a run of three segments whose accepted bytes are not a prefix of what the peer sent |
| `TcpStack.Stack.Process` | src/tcp_ip_stack.c:742-813 | after any packet the control block and buffer are those of the arrival step on the segment that was written (`TcpWire.ParseReadsBack`), and what is sent is the whole list of answers; -1 for a packet shorter than a header, 1 for a segment that opens or closes the connection, 0 otherwise |
| `TcpStack.AnswersAcknowledge` | src/tcp_ip_stack.c:775-808 | every answer carries the next sequence number and no data, the last one acknowledges exactly up to `rcv_nxt`, and nothing is answered exactly when the connection has not moved |
| `TcpStack.StreamArrives` | src/tcp_ip_stack.c:742-813 | from the bytes of a SYN-ACK and any segments after it, with any headers and options, to the bytes of the stream: as long as all fits the buffer, the buffer holds all payloads in order, `rcv_nxt` is past them and `snd_nxt` is what the SYN-ACK acknowledged |
| `TcpStack.Stack.Connect` | src/tcp_ip_stack.c:818-910 | connects exactly when the interface is ready and a SYN-ACK comes in one of the five tries whose SYN was sent; then both sequence numbers are those of the first such packet, otherwise -1 and closed; what is sent is a SYN for each try made and the final ACK |
| `TcpStack.Stack.SendData` | src/tcp_ip_stack.c:912-923 | -1 and nothing sent unless established; otherwise the segment with the old `snd_nxt`, `rcv_nxt`, PSH and ACK and the data is sent, and `snd_nxt` advances by the length modulo 2^32 |
| `TcpWire.ParseReadsBack` | src/tcp_ip_stack.c:742-788 | of every segment, with any ports, numbers, flags, reserved bits, window, checksum and options, what `tcp_process` reads is what was written: sequence number, acknowledgement, SYN, ACK, FIN and payload |
| `TcpWire.SentReadsBack` | src/tcp_ip_stack.c:706-738 | what is sent parses as what was asked for, and its checksum over pseudo-header and segment verifies |
| `TcpWire.SendPacket` | src/tcp_ip_stack.c:706-738 | the field stores, the copy loop and the checksum leave exactly that segment in the buffer |
| `TcpStack.Stack.ReceiveData` | src/tcp_ip_stack.c:925-958 | rounds of ten polls: no poll is made once there is data, every round starts with no data and the connection open, and polling stops before the timeout only with data or, at the end of a round, on a connection that is gone; then the unread bytes up to the limit are copied and counted as read; what was sent meanwhile is the answers to the packets polled |
| `TcpStack.ClosedStays` | src/tcp_ip_stack.c:929-936 | what a round still polls after the connection has gone has no effect and is not answered |
| `TcpStack.Stack.CloseConnection` | src/tcp_ip_stack.c:960-968 | an established connection becomes closed with a FIN-ACK sent, nothing else changes |
| `Checksum.SameBytes` | src/tcp_ip_stack.c:25-42 | summing in the processor's byte order stores the same two bytes as summing in network order |
| `Checksum.ChecksumVerifies` | src/tcp_ip_stack.c:25-42 | with the computed value stored in a zero field at any even place, the one's-complement sum over the data is 0xFFFF |
| `Checksum.SegmentVerifies` | src/tcp_ip_stack.c:669-738 | the same for a TCP segment with its pseudo-header |
| `Checksum.FoldLoop` | src/tcp_ip_stack.c:699-703 | folding in a loop ends with the one's-complement value of the sum |
| `Checksum.FoldTwice` | src/tcp_ip_stack.c:38-41 | folding twice is enough for every 32-bit sum |
| `Checksum.IpChecksum` | src/tcp_ip_stack.c:25-42 | for every length up to 65535, the complement of the network-order sum, byte-swapped, with no overflow of the accumulator |
| `Checksum.TcpChecksum` | src/tcp_ip_stack.c:669-704 | the same value over pseudo-header and segment |
| `Checksum.DhcpHeaderChecksum` | src/dhcp_client.c:110-120 | the same value for the IP header of a DHCP packet |
| `Dns.EncodeName` | src/tcp_ip_stack.c:469-488 | the bytes written are the labels with their lengths and a zero; none when a label is longer than 63 |
| `Dns.NameRoundTrip` | src/tcp_ip_stack.c:469-488 | the QNAME reads back as the host name exactly when the name has no empty label |
| `Dns.FinalDot` | src/tcp_ip_stack.c:469-488 | "a." is read back as "a" |
| `Dns.SkipLandsAfterName` | src/tcp_ip_stack.c:597-599 | the skip over a label sequence ends exactly after its root label |
| `Dns.QuestionsSkipped` | src/tcp_ip_stack.c:594-601 | the question loop ends exactly after all questions |
| `Dns.AddressFound` | src/tcp_ip_stack.c:603-628 | over records with names as labels or as a pointer, the loop finds the first A record with 4 bytes of data, or nothing |
| `Dns.ResponseParsed` | src/tcp_ip_stack.c:585-629 | the same for whole responses, with both counts read from the header |
| `Dns.ResponseRead` | src/tcp_ip_stack.c:585-629 | from the bytes of any response, header counts and anything behind the answers included, to the address of the first A record |
| `Dns.Resolver.Process` | src/tcp_ip_stack.c:585-630 | the loops store the address that is found and leave the old one when there is none; -1 for a payload below 12 bytes |
| `Dhcp.AddOption` | src/dhcp_client.c:49-57 | code, length and data are appended and nothing after them changes |
| `Dhcp.WriteOptions` | src/dhcp_client.c:49-57 | a list of options and pads, written one by one, is its encoding followed by END |
| `Dhcp.ReadOptions` | src/dhcp_client.c:213-246 | the loop stops on every input with what the scan finds |
| `Dhcp.ReadsBack` | src/dhcp_client.c:219-246 | on every encoded list, options of any length included, with END inside 312 bytes, the reader ends with what the last option of each code and the bytes behind it make |
| `Dhcp.ValueRecoveredIff` | src/dhcp_client.c:228-242 | that is the last value written exactly when it has the four bytes of an address, or the one of a message type, or as many pads follow as it lacks |
| `Dhcp.ShortMask` | src/dhcp_client.c:234-239 | a three-byte mask followed by the router's option is read with the router's code as fourth byte |
| `Dhcp.OfferConfigures` | src/dhcp_client.c:248-285 | message type (53), netmask (1), gateway (3) and name server (6) are what the last option of each code starts with, in network order, or the defaults; the address is the one at byte 16 |
| `Dhcp.Client.Process` | src/dhcp_client.c:164-291 | -1 for a short packet and 0 for another transaction, both without change; for our transaction the server address is taken from the options whatever the message type; 1 with the interface configured for an offer, 0 with the interface as it was otherwise |
| `FileStore.SavedLayout` | src/commands.c:321-416 | what a save leaves in every sector: directory, entries, users, extents of 16 sectors, and all others as they were; no region reaches into another |
| `FileStore.SlotsAt` | src/commands.c:372-413 | each sector of each file's extent after saving any list of slots |
| `FileStore.ParseBytes` | src/commands.c:338-340 | the 64 saved bytes hold name, size, type, attribute and parent of an entry |
| `FileStore.EntryFields` | src/commands.c:54-61 | where each field is among those bytes: the name in the first 56, then size, type, attribute and parent, numbers low byte first |
| `FileStore.DirRestoredIff` | src/commands.c:422-433 | the directory path comes back iff it starts with `C:`, is longer than that, and is terminated |
| `FileStore.TableRestoredIff` | src/commands.c:435-450 | the table comes back iff it has at most 64 entries and each has a name |
| `FileStore.UsersRestoredIff` | src/commands.c:452-463 | the users come back iff there are at most 5 and each has a name |
| `FileStore.ContentRestoredIff` | src/commands.c:465-502 | a file's bytes come back iff table and content store agree on its length |
| `FileStore.SaveLoadRoundTrip` | src/commands.c:321-505 | for every store within the limits with agreeing sizes, save and a fresh load restore directory, entries, users and contents, whatever the disk held before |
| `FileRuns.CreateKeeps` | src/commands.c:1137-1184 | MKDIR and TOUCH add the path to the volume iff it is new, and keep the invariant |
| `FileRuns.ModeKeeps` | src/commands.c:2030-2039 | CHMOD changes the attribute of exactly the named path |
| `FileRuns.DirKeeps` | src/commands.c:1379-1435 | CD moves to the parent or to an existing directory, and the path keeps its form |
| `FileRuns.EraseKeeps` | src/commands.c:2099-2103 | FORMAT empties the volume when confirmed |
| `FileRuns.PutKeeps` | src/commands.c:163-235 | saving contents within the limits never fails and replaces exactly the bytes of one path: the name itself if its second character is a colon, the current directory with the name behind it otherwise |
| `FileRuns.RoomForSlot` | src/commands.c:209-224 | the content store always has room for a file that has no slot yet |
| `FileRuns.FindIsLookup` | src/commands.c:182-189 | the search of the table is a lookup in the map of paths |
| `FileRuns.ReloadKeeps` | src/commands.c:419-556 | a store and the one booted from its saved disk stand for the same volume, and the invariant holds again |
| `FileRuns.ExecKeeps` | src/commands.c:163-235 | each operation or reboot does to memory and disk what it does to the live and the saved volume |
| `FileRuns.PersistenceOverRuns` | src/commands.c:1137-1260 | from a blank disk, over every run of MKDIR, TOUCH, CHMOD, CD, FORMAT, contents saved, saves and reboots within the limits: unique paths, one slot per file, agreeing sizes, and a reboot yields the volume as last saved |
| `FileRuns.UniqueIffPathFits` | src/commands.c:1213-1260 | creating a path twice leaves paths unique iff the path has at most 55 characters |
| `FileRuns.ContentsSurviveIffFile` | src/commands.c:163-235 | contents put under an existing name come back iff it is a file's |
| `FileRuns.SlotsFitIffSmall` | src/commands.c:226-232 | after a reload all slots fit their buffers iff the contents had at most 4096 bytes |
| `FilePaths.PlainNameStored` | src/commands.c:168-235 | contents saved under a name without a colon are at the current directory with the name behind it, in memory and after a reboot, and every other path is as before |
| `FilePaths.DriveNameStored` | src/commands.c:179-235 | contents saved under a name that starts with a drive are at that name, in memory and after a reboot, and every other path is as before |
| `FilePaths.NewNodes` | src/commands.c:1137-1260 | MKDIR of a new name makes an empty directory with attribute 0x10, TOUCH an empty file with 0x20, at the current directory with the name behind it |
| `FilePaths.AttributeSet` | src/commands.c:2030-2039 | CHMOD with a number printed in decimal sets the attribute to its low eight bits |
| `FilePaths.FormatErasesIff` | src/commands.c:2089-2109 | FORMAT leaves no file, in memory and after a reboot, exactly when the key is Y or y |
| `FilePaths.InAndOut` | src/commands.c:1389-1431 | CD into a directory makes it the current one with a backslash behind it, and CD .. leads back to where one was |
| `FilePaths.FirstUser` | src/commands.c:307-314 | the first user is named root and its password bytes are those of the hash of that name, low byte first |
| `FileSystem.Compare` | src/commands.c:237-245 | zero iff the string in the buffer is the other string |
| `FileSystem.CopyString` | src/commands.c:149-156 | the string, cut to the buffer, then a zero; the rest of the buffer keeps its bytes |
| `FileSystem.Files.SaveToDisk` | src/commands.c:321-416 | the sector loops write the disk that `Save` describes |
| `FileSystem.Files.SaveSlot` | src/commands.c:373-412 | all 16 sectors of a file's extent: its bytes, padded, then zeros |
| `FileSystem.Files.ReadContent` | src/commands.c:471-498 | the bytes read back, for every size, with the 32-bit sum of the sector count |
| `FileSystem.Files.LoadFromDisk` | src/commands.c:419-505 | the loops load the store that `Load` describes, over whatever memory held |
| `FileSystem.Files.InitCommands` | src/commands.c:510-556 | memory after start-up, with a root user, hashed in a loop, if there is none |
| `FileSystem.Files.MakeDirectory` | src/commands.c:1137-1184 | new table, disk and result code in every case |
| `FileSystem.Files.TouchFile` | src/commands.c:1213-1260 | new table, disk and result code in every case |
| `FileSystem.Files.ChangeAttributes` | src/commands.c:2020-2043 | new table, disk and result code in every case |
| `FileSystem.Files.ChangeDirectory` | src/commands.c:1379-1435 | new directory, disk and result code in every case |
| `FileSystem.Files.FormatDisk` | src/commands.c:2089-2109 | empty tables and a saved disk on Y or y, nothing otherwise |
| `FileSystem.Files.SaveFileContent` | src/commands.c:163-235 | new table, content store and result code, with both full conditions; the path it writes is that of `FileRuns.PutKeeps` |
| `Terminal.ConsoleRefinesTerminal` | src/io.asm:76-180 | over every run of output, clearing and scrolling in which output meets the live screen: ring and live screen are the last lines, at most 525, of an unbounded terminal, and the cursor is inside 80x25 |
| `Terminal.PutShows` | src/io.asm:113-186 | one character keeps that correspondence, for newline, return, backspace, wrap and scroll; what the cells then show is `TerminalText.TextShown` |
| `Terminal.CaptureJoins` | src/scrollback.c:47-57 | a captured line joins the end of the history, and the oldest leaves it when 500 are held |
| `Terminal.ScrollingRestores` | src/scrollback.c:113-155 | over every run of PgUp, PgDn and reset: offset at most the count, saved iff scrolled, the display is the marked window at the offset, and at offset 0 it is the original screen |
| `Terminal.PressKeepsView` | src/scrollback.c:113-155 | one key, and that ring, cursor and live screen do not change |
| `Terminal.RedrawShowsWindow` | src/scrollback.c:74-111 | the redraw puts the window of ring and saved screen on display |
| `Terminal.DisplayIsWindow` | src/scrollback.c:74-142 | after any such run the display is a window of the terminal's lines |
| `Terminal.OutputKeptIff` | src/io.asm:113-186 | while scrolled back, a character, a colour or a clear keeps ring and live screen the terminal's last lines exactly when it is harmless: the live screen has that character there already, or, when it scrolls, the line captured and the scrolled screen are the live ones |
| `Terminal.ScrollCapturesDisplay` | src/scrollback.c:47-57 | a scroll while scrolled back captures the marked line on display, leaves the live screen alone, and the reset brings that back |
| `Terminal.LineFeedHarms` | src/scrollback.c:106-110 | a line feed that scrolls while scrolled back is never harmless |
| `TerminalText.GlyphReads` | src/io.asm:137-138 | the low byte of a written cell is the character and the high byte the attribute |
| `TerminalText.TextShown` | src/io.asm:113-186 | text of any length on a cleared terminal: its lines, in pieces of 80, are on lines of their own from the first visible one on, as characters in the low and the attribute in the high bytes, with spaces up to the margin; lines above are as before, and the cursor is behind the last character |
| `TerminalText.SplitJoins` | src/io.asm:162-165 | the lines are those of the text: joined with line feeds they give it back |
| `TerminalText.ConsoleShowsText` | src/io.asm:90-211 | on a fresh console the screen shows the last 25 of those lines and the ring up to 500 before them, oldest first |
| `TerminalText.BackspaceUndoes` | src/io.asm:143-157 | a backspace after a character restores the terminal with a space in its place |
| `TerminalText.MarksShow` | src/scrollback.c:106-110 | the marks are a ^ and a v with attribute 0x4E at the right margin, and every other cell is as it was |
| `TerminalText.KeysMove` | src/scrollback.c:113-155 | n times PgUp go back 5n lines or as many as there are, with the window there on display; n times PgDn or the reset then bring back the live screen |
| `ConsoleDriver.Console.Putc` | src/io.asm:113-186 | cells, cursor and ring in place, after any character; a character before the margin is in the low byte of the cell at the cursor and the attribute in the high byte |
| `ConsoleDriver.Console.ScrollUp` | src/io.asm:90-110 | the overlapping block move and the blank fill are one line up, the top line captured |
| `ConsoleDriver.Console.Cls` | src/io.asm:76-87 | all 2000 cells blank in the current colour, cursor home |
| `ConsoleDriver.Console.Puts` | src/io.asm:189-211 | a string is its characters in order |
| `ConsoleDriver.Console.Capture` | src/scrollback.c:47-57 | the ring row, position and count after a capture |
| `ConsoleDriver.Console.Save` | src/scrollback.c:25-33 | the screen is copied unless one is saved already |
| `ConsoleDriver.Console.Restore` | src/scrollback.c:36-44 | the saved screen is back, if there is one |
| `ConsoleDriver.Console.Redraw` | src/scrollback.c:74-111 | every row comes from blank, ring, saved screen or itself, then the two marks |
| `ConsoleDriver.Console.PageUp` | src/scrollback.c:114-129 | offset, saved screen and display after PgUp |
| `ConsoleDriver.Console.PageDown` | src/scrollback.c:132-142 | offset, saved screen and display after PgDn |
| `ConsoleDriver.Console.Reset` | src/scrollback.c:150-155 | back to the live view |
| `Heap.InitOk` | src/memory.asm:56-86 | after `mem_init` one free block tiles the heap and is the list |
| `Heap.AllocateOk` | src/memory.asm:159-237 | taking a block at least 20 bytes larger than needed, by split or whole, keeps tiling, links, order and alignment |
| `Heap.AllocateIsSoundIff` | src/memory.asm:164-198 | taking a fitting block leaves a sound heap iff it is at least 20 bytes larger than needed |
| `Heap.TooSmallBreaksHeap` | src/memory.asm:164-198 | below that no layout makes the result a sound heap |
| `Heap.AlmostWholeHeap` | src/memory.asm:114-198 | a request for 988 bytes on a fresh heap of 1024 finds no room for a header, and no layout makes the result consistent |
| `Heap.KmallocKeepsWorld` | src/memory.asm:114-237 | one `kmalloc` keeps the heap sound and every earlier payload owned |
| `Heap.KmallocServesIff` | src/memory.asm:114-237 | `kmalloc` returns memory exactly when some is asked for and a listed block is free and large enough, and then it is the payload of the first such block |
| `Heap.RunKeepsWorld` | src/memory.asm:114-237 | the same over every run |
| `Heap.AllocationsDisjoint` | src/memory.asm:41-237 | from `mem_init`, over every run of `kmalloc` within the condition: blocks tile the heap, the list is finite and ordered, payloads are aligned as the heap is, inside it and pairwise disjoint |
| `Heap.AlignCovers` | src/memory.asm:127-129 | the rounded size covers the request iff rounding does not wrap |
| `HeapFree.KfreeKeepsTiling` | src/memory.asm:298-372 | a release keeps the tiling by the blocks that are not absorbed, whichever neighbours it merges with, when its links are null or other blocks, those it merges with are the physical neighbours, and a free right neighbour does not lead back to it |
| `HeapFree.MergedWithItself` | src/memory.asm:314-349 | when a free right neighbour leads back, whatever the back link, the block is merged with itself, its size counted twice, and the blocks that are left (all but the neighbour) do not tile the heap |
| `HeapFree.KfreeTilesIff` | src/memory.asm:298-372 | with links that are null or blocks and merges with physical neighbours only: the blocks that are left, all but the absorbed ones, tile the heap exactly when a free right neighbour does not lead back |
| `HeapFree.BytesAddUp` | src/memory.asm:408-447 | free + used + 20 * blocks is the size of any tiled heap |
| `HeapFree.ReleaseConserves` | src/memory.asm:298-372 | under the same condition on the links a release keeps that sum |
| `HeapFree.AllocationConserves` | src/memory.asm:164-237 | an allocation keeps that sum |
| `HeapList.ListEndsIff` | src/memory.asm:298-372 | in every branch of a release, for every block whose links lead to blocks, on the list or off it: the list still ends exactly when the block is put in front of a list it was not on, or is merged into a free block before it and the links beyond lead to null without meeting that one |
| `HeapList.ListEndsInOrder` | src/memory.asm:298-372 | with links in the order of addresses: exactly when the block was off the list or the block before it is free |
| `HeapList.ReleaseIsSoundIff` | src/memory.asm:298-372 | some layout makes the heap sound again exactly when the release merges into the block before without passing over a free one, or does not merge and lies before all that is listed |
| `HeapList.ListedReleaseIsSoundIff` | src/memory.asm:298-372 | for a block still on the list: exactly when the block before it there is free |
| `HeapRuns.KmallocKeepsSpare` | src/memory.asm:114-237 | `kmalloc` keeps all blocks but the last in use and on the list, and the last free on it or in use off it |
| `HeapRuns.SpareReleased` | src/memory.asm:298-385 | releasing that last block puts it first on the list and changes no other block's size |
| `HeapRuns.ListedReleaseBreaks` | src/memory.asm:298-385 | after the release of any other block no layout makes the heap consistent: the list never ends, or the last block reaches past the heap |
| `HeapRuns.CallKeepsOrder` | src/memory.asm:114-385 | a `kmalloc` that finds room for a header and a `kfree` of a block that is off the list keep the heap consistent and every live payload owned |
| `HeapRuns.RunIsSoundIff` | src/memory.asm:41-385 | over every run of such calls from `mem_init`: blocks tile the heap, the list ends, live payloads are inside it and pairwise disjoint; and any next call leaves a heap that some layout makes consistent exactly when it is such a call too |
| `HeapRuns.OneReleasable` | src/memory.asm:272-385 | after any such run at most one live allocation can be released that way |
| `HeapRuns.ReleasedListEndsIff` | src/memory.asm:272-385 | after every run of `kmalloc` within its condition, releasing an allocation leaves a list that ends exactly when its block is off the list |
| `HeapRuns.KfreeKeepsWorldIff` | src/memory.asm:272-385 | in any sound state: some layout makes the heap sound with the remaining payloads owned exactly when the release fits the list |
| `HeapRuns.HeaderOutsideHeap` | src/memory.asm:114-385 | on a fresh heap of 1024 bytes two allocations of 4, released last first: the first block claims 2028 bytes, first fit gives it to a request for 1500, and a header is stored past the end of the heap |
| `HeapRuns.TilingBreaks` | src/memory.asm:114-385 | in that run the heap is tiled before the last release, the links are as `HeapFree.KfreeTilesIff` asks, the neighbour leads back, and the block that is left does not tile the heap |
| `HeapRuns.LiveInsideFree` | src/memory.asm:114-385 | allocations of 4, 4 and 28 on such a heap, then the second and the first released: two blocks tile the heap, the first is free, and the live payload of 28 bytes lies inside it |
| `HeapRuns.ReleaseAfterOneLoops` | src/memory.asm:272-385 | one small allocation from a fresh heap, released again: the list never ends |
| `HeapRuns.ReleaseAfterTwoLoops` | src/memory.asm:272-385 | two small allocations from a fresh heap, then the first released: the list never ends |
| `KernelHeap.Allocator.MemInit` | src/memory.asm:41-106 | each error code exactly when its check fails, and a sound heap on success |
| `KernelHeap.Allocator.FirstFit` | src/memory.asm:132-157 | the search ends with the first listed block that is free and large enough |
| `KernelHeap.Allocator.Kmalloc` | src/memory.asm:114-265 | memory, list head, pointer and running totals are those of the model; with room for a header the heap stays consistent with all payloads owned, and the list in order if it was |
| `KernelHeap.Allocator.Kfree` | src/memory.asm:272-385 | nothing changes for NULL and what is no used block; after the release of a block of a tiled heap the blocks that are left tile it, with the same total, exactly when no free right neighbour leads back; a block of a consistent heap leaves a list that ends, and one of a sound heap a sound heap, exactly under the two conditions above |
| `KernelHeap.Allocator.GetStats` | src/memory.asm:397-472 | on every tiled heap the scan ends with the exact counts, which add up to the heap |
| `KernelHeap.Allocator.Validate` | src/memory.asm:478-523 | 0 on every tiled heap |
| `MouseRing.RunKeepsInv` | src/interrupt.asm:95-105 | over every interleaving of interrupts with the instructions of the reader: unread bytes are in the ring in order and the decoder has seen exactly the bytes consumed |
| `MouseRing.ConsumedIsPrefix` | src/interrupt.asm:392-407 | consumed bytes are a prefix of produced ones, and the pointer is what decoding that prefix gives |
| `MouseRing.FullRingLooksEmpty` | src/interrupt.asm:98-105 | after an interrupt that met at most 255 waiting bytes, the ring looks empty iff 256 bytes now wait |
| `MouseRing.UnreadKeptIff` | src/interrupt.asm:98-105 | an interrupt leaves the unread bytes in the ring iff fewer than 256 wait or it brings the byte it overwrites |
| `MouseRing.PollsCompose` | src/drivers/mouse.c:117-155 | how bytes are split over polls does not matter |
| `MouseRing.PointerStaysInside` | src/drivers/mouse.c:147-152 | the pointer stays inside bounds of at least 1x1 over every byte sequence |
| `MouseRing.BoundsKeepInside` | src/drivers/mouse.c:164-170 | new bounds keep the pointer inside iff they are at least 1x1, and then it is at the nearest place inside |
| `MouseRing.PacketsMoveThePointer` | src/drivers/mouse.c:124-153 | three-byte packets move the pointer packet by packet, each as `MouseRing.ReportObeyed` says |
| `MouseRing.ReportObeyed` | src/drivers/mouse.c:136-152 | for a packet that encodes buttons, overflow and motion of a signed byte: the buttons are set, and the pointer is at the place inside nearest to its own plus dx and minus dy, where an axis that overflowed does not move |
| `MouseRing.ReportsObeyed` | src/drivers/mouse.c:124-153 | the same over every sequence of packets, byte by byte |
| `MouseRing.MotionAddsUp` | src/drivers/mouse.c:124-153 | as long as no packet asks for a place outside, the pointer is at the start plus the sum of dx and minus the sum of dy |
| `MouseRing.MotionReadIff` | src/drivers/mouse.c:137-138 | motion in the nine bits of a PS/2 packet is read as reported iff it lies between -128 and 127 |
| `MouseRing.FastMotionTurns` | src/drivers/mouse.c:137-138 | 200 to the right moves the pointer 56 to the left |
| `MouseDriver.Device.Deliver` | src/interrupt.asm:95-105 | the store without a check appends exactly that byte while fewer than 255 wait |
| `MouseDriver.Device.Read` | src/interrupt.asm:392-407 | with interrupts before any instruction, as long as there is room: -1 exactly when nothing was waiting at the comparison, otherwise the next byte consumed; every byte that arrived is in |
| `MouseDriver.Device.Apply` | src/drivers/mouse.c:124-153 | the fields after one byte are those of the decoder, which `MouseRing.ReportObeyed` describes |
| `MouseDriver.Device.Poll` | src/drivers/mouse.c:117-155 | however the interrupts fall into the reads, as long as there is room: the loop ends at the first read that finds nothing at its comparison, all that had arrived by then is consumed, one byte in each read before, and the decoder has seen exactly that; on a quiet line it is all of them |
| `Numbers.NumberOfDigits` | src/utils.c:239-258 | the digits printed are figures and capital letters without leading zeros, and their value is the number |
| `Numbers.StrRev` | src/utils.c:115-128 | the string reversed in place, nothing else changed |
| `Numbers.Utoa` | src/utils.c:239-258 | the terminated digits for bases 2 to 36, failure otherwise |
| `Numbers.Itoa` | src/utils.c:205-236 | the same with a sign in base 10; in other bases a negative number gives the digits of its magnitude counted down from '0' |
| `Numbers.PrintedIsIntendedIff` | src/utils.c:219-230 | that is the signed number in base 10 and the unsigned one elsewhere exactly when the number is not negative or the base is 10 |
| `Numbers.MinusOneInHex` | src/utils.c:222-230 | -1 in base 16 is printed as one slash |
| `Numbers.IntToStr` | src/commands.c:267-284 | the terminated decimal digits, which eleven bytes always hold |
| `Numbers.ParsePrefixed` | src/utils.c:293-344 | blanks and prefix skipped, then the value of the digit run modulo 2^32 |
| `Numbers.StrToInt` | src/commands.c:286-293 | the value of the leading digit run modulo 2^32 |
| `Numbers.Atoi` | src/utils.c:261-285 | blanks and sign, then the signed value of the digit run |
| `Numbers.PrefixedRoundTrip` | src/utils.c:293-344 | `htoi` undoes `utoa` base 16 and `btoi` undoes base 2, for every 32-bit value |
| `Numbers.DecimalRoundTrip` | src/commands.c:267-293 | `str_to_int` undoes `int_to_str`, for every 32-bit value |
| `Numbers.SignedRoundTrip` | src/utils.c:205-285 | `atoi` undoes `itoa` base 10 for every signed value above the least |
| `Numbers.PrefixedRead` | src/utils.c:293-344 | `htoi` and `btoi` find the number after any blanks and a prefix, whatever follows that is no digit |
| `Numbers.SignedRead` | src/utils.c:261-285 | `atoi` finds the number after any blanks and a sign, whatever follows that is no digit |
| `Numbers.NewtonStep` | src/utils.c:482-487 | one step never falls below the root and stops only at it |
| `Numbers.Sqrt` | src/utils.c:477-490 | for every input but the largest the loop ends with x*x <= n < (x+1)*(x+1) without overflow; a divide fault for the largest only |
| `Tokenizer.TokensAreMaximalRuns` | src/utils.c:570-603 | the tokens are exactly the maximal delimiter-free runs, in order, and cover every other character |
| `Tokenizer.StrtokR` | src/utils.c:606-641 | one call returns the next run, cuts it in place and says where to go on |
| `Tokenizer.Strtok.Call` | src/utils.c:570-603 | the same with the position kept in a static variable |
| `Tokenizer.TokenizeAll` | src/utils.c:570-603 | calling until NULL yields exactly those runs, each a terminated string in the buffer |

## Left out

- Port I/O, device bring-up and feature negotiation (ATA, PIC, PCI, VGA, VBE, PS/2, VirtIO): the disk is a map of sectors and the network device an abstract one that follows section 2.6 of VIRTIO 1.1.
- Memory barriers and the notification write of `wifi_recv`: steps take effect in program order; the queue size reported is 256.
- `wifi_send`: it does not look at the used ring and has no ownership protocol.
- `Tcp.RunKeepsInv`: segments whose data offset points past their end, because the length would wrap and the copy leave the packet.
- `TcpStack.Stack.Process`: the same segments.
- `TcpWire.SendPacket`: payloads of more than 1480 bytes, which the code writes past its buffer of 1500, and the call of `ip_send`.
- Timeouts and polling intervals: how many rounds of polls there are before a timeout, and what each poll brings, are parameters.
- `Dns.EncodeName`: host names whose query does not fit the fixed 512 bytes of `dns_resolve`, which the code writes past without a check.
- `Dns.ResponseParsed`: malformed responses; bytes past the end of a packet read as zero, where the code would read other memory.
- `Dhcp.ReadOptions`: bytes past the end of a packet read as zero in the same way.
- ARP, ICMP, UDP dispatch and `ip_send`: small members around what is modelled.
- `FileSystem.Files.SaveToDisk`: disk errors, after which the code gives up in the middle; every write succeeds.
- `FileSystem.Files.LoadFromDisk`: read errors in the same way.
- `FileSystem.Files.SaveFileContent`: null arguments and a negative length, which return -1, and the empty name, for which the code reads one byte past the string.
- DEL, RMDIR, COPY, MOVE, the editor and the user commands: the first two shift table indices without moving contents and the next two do not check the target name, so the invariant of the runs does not cover them.
- `Terminal.ConsoleRefinesTerminal`: runs with output while scrolled back, which is harmless only in the cases of `Terminal.OutputKeptIff`.
- The cursor of the display hardware, `scrollback_save_line` and the getters.
- `HeapList.ListEndsIff`: blocks whose links lead, directly or further on, to a block that has been absorbed since.
- `HeapList.ListEndsInOrder`: blocks whose links are neither null nor listed; `HeapList.ListEndsIff` covers them.
- `HeapList.ReleaseIsSoundIff`: blocks whose links are neither null nor listed. No run within the conditions of `HeapRuns.RunIsSoundIff` has one (`HeapRuns.LinksStayListed`).
- `HeapRuns.RunIsSoundIff`: `kfree` of pointers that are not live.
- `KernelHeap.Allocator.Kmalloc`: that it stores the rounded size over a saved register.
- `Numbers.Itoa`: the least value in base 10, whose negation overflows.
- `Numbers.Atoi`: numbers of 2^31 and above, where the signed sum overflows.
- `MouseRing.ConsumedIsPrefix`: runs in which 256 bytes or more wait, which the ring cannot hold.
- The keyboard ring, scancode translation, `src/filesys.asm`, `src/drivers/ne2000.c`, graphics programs, calculators, clock and shell prompting.

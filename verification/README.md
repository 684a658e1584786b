# Verified models of the BMC firmware's stateful cores

A Dafny model of the parts of the firmware that keep state, scan buffers or do byte arithmetic, with proofs of what
they are for. `dafny verify dfyconfig.toml` checks everything.

Code that changes state step by step is a class or a method with loops, proved to compute a function on values; what
the program promises is then proved about those functions, mostly over whole runs.

- **SSDP discovery** (`SsdpText`, `SsdpParser`, `SsdpPrinter`, `NeighborTable`, `NeighborList`, `SsdpNode`; UPnP Device
  Architecture 1.1, sections 1.2 and 1.3). The index-based parser computes "split at CRLF, split at the first colon,
  trim, store"; the three printers and the parser undo each other; the linked list on the heap refines an
  insertion-ordered map; together they give a theorem about two nodes discovering each other.
- **KVM video** (`VideoCodec`, `VideoStream`). The engine's coding is hardware; `VideoCodec` stands for it with frames
  of blocks and differences that restore the screen on the picture they were taken against. `VideoCapture` as a state
  machine beside a decoding client: over every run the client's picture is the captured screen after each ASPEED frame.
- **Redfish registry** (`NumberSet`, `Registry`, `Accounts`, `Roles`, `Subscriptions`, `Sessions`, `ResourcePatch`,
  with `Decimal` and `Json`). One generic collection in which allocated numbers, members and `g_record` entries
  correspond one to one, and the requests built on it.
- **Power history** (`PowerHistory`). Six tables overwritten in turn, driven by three nested counters.
- **IPMI and RMCP+** (`Bytes`, `IpmiMessage`, `Cbc`, `RmcpPayload`; IPMI v2.0, sections 13.8 and 13.29). Checksums,
  the response message, and the encrypted payload with its pad, over any invertible block cipher.

## What turned out different from what one would expect

- A printed field comes back without the blank or unprintable characters at its ends; `FaithfulWhenTrimmed` says
  exactly when nothing is lost.
- The age of a neighbour is narrowed to `long`. On a processor with a 32-bit `long` an entry older than 2^31 ms looks
  young again; `DroppedExactlyWhen` gives the exact rule for any width.
- The encrypted payload is limited to 223 bytes: from 224 on the 8-bit length wraps (`PayloadRoundTrip`).
- The receiver has AES store as many bytes as the length byte says, which counts the IV as well, in an array declared
  16 bytes shorter: on every packet it can work on, 16 bytes are written past decrypt_out (`ReceiverOverruns`, and
  `StripPad` on memory). It then takes the pad count from the array's last byte without a test: the message lies inside
  the array exactly when that count is at most length - 17, and otherwise the program reads on for nearly 2^32 bytes
  (`ReadsInside`, `WildPacket`). No packet this sender builds leads there (`SentReceived`).
- The sender's aes_out is overrun by 256 bytes when the message length modulo 256 is 240 or more (`SenderFits`); no
  response is that long (`ResponseDelivered`).
- An id above 2147483647 can be allocated but not deleted: `stoi` throws (`RemoveUndoesCreate`).
- The number allocator wraps to 1, not to 0: the loop's increment follows the reset (`IsNext`).
- `modify_role` compares with the privileges the role had, not with those it is adding, so a request can store one
  twice (`RoleWithoutRepeats`, `RepeatedPrivilege`). The NTP server loop compares with the growing list and cannot
  (`MergeKeeps`, `LoopsAgree`).
- The full frame after a JPEG is needed, and not a precaution: a difference would be taken against the JPEG's screen,
  which the client's ASPEED picture does not show (`JpegNeedsFullFrame`).
- A logout does not always hold: another session with the same token takes over once the first is gone
  (`SharedTokenRevives`); `LoggedOutForGood` says exactly when it holds.
- An NTP server that is no text makes the request throw after earlier servers have been stored (`PatchNtp`).
- A retry policy is checked when a subscription is patched but not when it is created (`StepKeepsPolicies`,
  `UnknownPolicy`).

## Model

| member | source | states |
|---|---|---|
| `SsdpParser.CopyValue` | KETI-Edge/lssdp.cpp:796 | copying a value overlays the front of the buffer, cut so that the last byte is never written; what lay beyond the value stays |
| `SsdpParser.GetColonIndex` | KETI-Edge/lssdp.cpp:829-837 | the first colon of the stretch, or -1 exactly when it has none |
| `SsdpParser.TrimSpaces` | KETI-Edge/lssdp.cpp:839-853 | narrows to exactly the text between the first and last visible character, and fails exactly when there is none; both scans stay inside the data |
| `SsdpText.TrimBetween` | KETI-Edge/lssdp.cpp:843-851 | what lies between the first and the last character that is not blank is what trimming from either end leaves |
| `SsdpText.TrimFixed` | KETI-Edge/lssdp.cpp:839-853 | trimming changes a text exactly when one of its ends is blank or unprintable; what is left is always trimmed |
| `SsdpText.TrimOuter` | KETI-Edge/lssdp.cpp:839-853 | in characters written out: spaces, control characters and anything past the tilde go at either end, up to the first and last character that is none of them |
| `SsdpParser.FindEntry` | KETI-Edge/lssdp.cpp:753-791 | the name and value found by index are those of splitting the line at its first colon and trimming both halves; lines without a usable field are given up exactly where the split has none |
| `SsdpParser.StoreEntry` | KETI-Edge/lssdp.cpp:794-826 | a recognised name, in any case, overlays its own buffer and no other; st and nt share one |
| `SsdpText.CaseIgnored` | KETI-Edge/lssdp.cpp:795-820 | two names that differ in the case of letters only name the same field |
| `SsdpText.LowerNames` | KETI-Edge/lssdp.cpp:795-820 | the six names and the five fields they name |
| `SsdpParser.ParseFieldLine` | KETI-Edge/lssdp.cpp:753-827 | one line does to the packet what the field specification says, or nothing |
| `SsdpParser.ReadHeader` | KETI-Edge/lssdp.cpp:720-732 | the three method headers, tried in order; an unknown one leaves the packet alone |
| `SsdpParser.ReadFields` | KETI-Edge/lssdp.cpp:734-741 | the index loop folds the packet over the lines of the text, split at CRLF; empty lines and text after the last CRLF are no lines |
| `SsdpParser.PacketParser` | KETI-Edge/lssdp.cpp:704-751 | the parser succeeds exactly for text without NUL, under a known header, read with a valid clock, and then holds the folded packet |
| `SsdpText.AcceptedExactly` | KETI-Edge/lssdp.cpp:710-732 | a datagram is accepted if and only if it holds no NUL and starts with one of the three headers, written out, and more |
| `SsdpText.BareHeaders` | KETI-Edge/lssdp.cpp:722-732 | a header alone is refused |
| `SsdpText.LinesOfJoin` | KETI-Edge/lssdp.cpp:736-741 | splitting undoes joining with CRLF, and the blank line that closes a packet is no line |
| `SsdpPrinter.ParseLineOf` | KETI-Edge/lssdp.cpp:753-827 | printing name, colon and value and parsing that line stores the trimmed value under the name; a value with colons is kept whole and a blank one is skipped |
| `SsdpPrinter.SpacedValue` | KETI-Edge/lssdp.cpp:753-827 | a value between spaces or control characters on its line is stored without them |
| `SsdpPrinter.SpacedPacket` | KETI-Edge/lssdp.cpp:704-827 | a NOTIFY with such a line is read as that value |
| `SsdpPrinter.FieldOnce` | KETI-Edge/lssdp.cpp:794-826 | a field that occurs once ends up as that value over what the buffer held |
| `SsdpPrinter.PacketsFit` | KETI-Edge/lssdp.cpp:410-495 | the longest header a node can hold still fits the 2048-byte buffer: snprintf cuts none of the three packets |
| `SsdpPrinter.MsearchText` | KETI-Edge/lssdp.cpp:411-422 | the M-SEARCH line by line |
| `SsdpPrinter.NotifyText` | KETI-Edge/lssdp.cpp:474-495 | the NOTIFY line by line |
| `SsdpPrinter.ResponseText` | KETI-Edge/lssdp.cpp:662-682 | the RESPONSE line by line |
| `SsdpPrinter.ParsePrinted` | KETI-Edge/lssdp.cpp:704-751 | parsing a printed packet of any clean fields stores every value under its own name |
| `SsdpPrinter.NotifyRoundTrip` | KETI-Edge/lssdp.cpp:474-495 | a NOTIFY parses to method NOTIFY and the sender's search target, USN, SM_ID and device type, each without blank ends, and to the location prefix + domain + suffix, or prefix + interface address + suffix exactly where the domain is empty, cut to 255 bytes |
| `SsdpPrinter.ResponseRoundTrip` | KETI-Edge/lssdp.cpp:660-682 | the same for a RESPONSE |
| `SsdpPrinter.MsearchRoundTrip` | KETI-Edge/lssdp.cpp:411-422 | an M-SEARCH parses to its method and search target |
| `SsdpPrinter.FaithfulWhenTrimmed` | KETI-Edge/lssdp.cpp:843-851 | the receiver's view is exactly the sender's header if and only if no field has a blank end and the location fits |
| `NeighborTable.AddRefinesPut` | KETI-Edge/lssdp.cpp:882-961 | adding is a map update keyed by location: a known location keeps its place, a new one goes last |
| `NeighborTable.FilterRefinesRetain` | KETI-Edge/lssdp.cpp:529-553 | removing entries is removing them from the map, the rest keeping their order |
| `NeighborTable.CheckRefinesRetain` | KETI-Edge/lssdp.cpp:511-560 | a check keeps exactly the entries younger than the timeout, in order |
| `NeighborTable.RunDistinct` | KETI-Edge/lssdp.cpp:882-986 | no run of adds, checks and clearings gives two entries one location |
| `NeighborTable.RunRefinesMap` | KETI-Edge/lssdp.cpp:511-986 | through every run of adds, checks and clearings the list is the insertion-ordered map that went through the same events |
| `NeighborTable.RunTracks` | KETI-Edge/lssdp.cpp:511-560 | what a run leaves at a location depends on that peer's own announcements, the checks and the clearings alone |
| `NeighborTable.RefreshedPeerStays` | KETI-Edge/lssdp.cpp:511-560 | with a monotone clock, a peer heard once, and again within the timeout before every later check, is dropped by none of them, unless the list is cleared after it was heard |
| `NeighborTable.SilentPeerDropped` | KETI-Edge/lssdp.cpp:533-552 | a peer silent for at least the timeout is absent after a check, as long as its age fits a C long |
| `NeighborTable.DroppedExactlyWhen` | KETI-Edge/lssdp.cpp:533-552 | the exact rule with the narrowing to long, for any list and peer: a check drops the peer if and only if its age modulo the range of long lies between the timeout and the maximum of long, and otherwise leaves its entry as it was |
| `NeighborTable.ToLongIsMod` | KETI-Edge/lssdp.cpp:533 | narrowing any difference of times to long is reduction modulo its range, folded to negative in the upper half |
| `NeighborTable.HeardChanges` | KETI-Edge/lssdp.cpp:895-958 | hearing a peer counts as a change if and only if it is new or its USN, SM_ID or device type is |
| `NeighborTable.CheckChanges` | KETI-Edge/lssdp.cpp:517-558 | a check does if and only if the timeout is positive, the clock valid and some entry at least as old as the timeout |
| `NeighborTable.ClearChanges` | KETI-Edge/lssdp.cpp:963-977 | clearing does if and only if there is something to clear |
| `NeighborList.NeighborRegister.UpdateNode` | KETI-Edge/lssdp.cpp:895-917 | a known peer's strings and time are replaced; a change is reported exactly when something other than the time differs |
| `NeighborList.NeighborRegister.FindNode` | KETI-Edge/lssdp.cpp:885-891 | the scan stops at the first node with the location, or at the end with the last node in hand |
| `NeighborList.NeighborRegister.Append` | KETI-Edge/lssdp.cpp:945-951 | the new node goes behind the last one, or becomes the head of an empty list |
| `NeighborList.NeighborRegister.Add` | KETI-Edge/lssdp.cpp:882-961 | the heap list stays finite and acyclic, no two nodes share a location, and it becomes the table's Add; the callback fires once if and only if more than update times changed |
| `NeighborList.NeighborRegister.Unlink` | KETI-Edge/lssdp.cpp:543-552 | one node leaves the chain, every other keeps its place |
| `NeighborList.NeighborRegister.Remove` | KETI-Edge/lssdp.cpp:543-552 | the unlinked node is freed once and no freed node stays in the chain |
| `NeighborList.NeighborRegister.RemoveExpired` | KETI-Edge/lssdp.cpp:529-553 | the loop leaves exactly the entries younger than the timeout, in order, and reports a change exactly when one went |
| `NeighborList.NeighborRegister.CheckTimeout` | KETI-Edge/lssdp.cpp:511-560 | the check refines the table's Check; without a positive timeout or a valid clock nothing changes; one callback exactly for a changed list |
| `NeighborList.NeighborRegister.FreeFrom` | KETI-Edge/lssdp.cpp:981-986 | every node from the given one on is freed, each once |
| `NeighborList.NeighborRegister.RemoveAll` | KETI-Edge/lssdp.cpp:963-979 | the list is emptied and all its memory freed; one callback exactly if it was not empty |
| `SsdpNode.Receive` | KETI-Edge/lssdp.cpp:355-358 | a datagram is accepted exactly when the parser accepts it, and its fields are read as C strings |
| `SsdpNode.LssdpCtx.FindInterfaceInLan` | KETI-Edge/lssdp.cpp:988-1000 | the first interface whose masked address equals the sender's |
| `SsdpNode.LssdpCtx.Dispatch` | KETI-Edge/lssdp.cpp:354-381 | another search target does nothing, a search is answered on a shared LAN, anything else is added; the list, the reply and the callback count are stated |
| `SsdpNode.LssdpCtx.SocketRead` | KETI-Edge/lssdp.cpp:318-389 | the whole read: refused without socket or port, otherwise Dispatch and one packet callback |
| `SsdpNode.NotifyRead` | KETI-Edge/lssdp.cpp:354-381 | reading a peer's printed NOTIFY adds exactly that peer if the search targets agree and otherwise changes nothing |
| `SsdpNode.ResponseRead` | KETI-Edge/lssdp.cpp:354-381 | the same for a printed RESPONSE |
| `SsdpNode.MsearchRead` | KETI-Edge/lssdp.cpp:369-373 | a printed M-SEARCH never changes the list and is answered exactly when the target is ours and a LAN is shared |
| `SsdpNode.SearchAnswered` | KETI-Edge/lssdp.cpp:638-682 | a search is answered, with the address of the first interface on the sender's network, if and only if it names our search target |
| `SsdpNode.SearchUnanswered` | KETI-Edge/lssdp.cpp:646-657 | where no interface is on that network it is not answered |
| `SsdpNode.MaskedAddresses` | KETI-Edge/lssdp.cpp:994-995 | two addresses under one mask, one inside and one outside the network |
| `SsdpNode.NotifyDiscovers` | KETI-Edge/lssdp.cpp:318-389 | after one NOTIFY the list holds one entry for its sender, at the location made with its domain, or its interface's address where it has none, with its other fields and the current time; all other entries are as before |
| `SsdpNode.SearchDiscovers` | KETI-Edge/lssdp.cpp:318-389 | search, answer and read across two nodes: the searcher ends up with the answering node in its list, at that location |
| `VideoStream.VideoServer.Init` | kvm/ast-video.c:89-130 | the reset starts counting at zero and asks for a full frame |
| `VideoStream.VideoServer.VideoCapture` | kvm/ast-video.c:61-352 | one call makes exactly the protocol's step: reset, JPEG, full frame or difference, with the stated header and next state |
| `VideoStream.VideoServer.CheckClient` | kvm/ast-video.c:329-344 | the client's settings are taken over and force a reset exactly if one of the four differs |
| `VideoStream.ReplyTakenOver` | kvm/ast-video.c:329-344 | after a call that sends something the client's four settings are in force, each in its own place, and the rest is as before; a reset is left to be done if and only if one of the four was new |
| `VideoStream.SilentCallResets` | kvm/ast-video.c:90-130 | a call that sends nothing starts the count again, asks for a full frame and changes no setting |
| `VideoStream.NextFrameAsAsked` | kvm/ast-video.c:205-220 | the next ASPEED frame after a reply is announced and encoded as that reply asked, whatever resets come in between |
| `VideoStream.SameReplySettles` | kvm/ast-video.c:329-344 | a client that goes on asking for the same causes no further reset |
| `VideoStream.AspeedSchedule` | kvm/ast-video.c:132-299 | an ASPEED frame goes out if and only if no reset is due, the engine reports neither a mode change nor zero length, and it is not a JPEG's turn |
| `VideoStream.JpegSettings` | kvm/ast-video.c:147-155 | a JPEG is made with Y table 4, no RC4 and no visual losslessness, in the 4:2:0 mode in force |
| `VideoStream.RunInStep` | kvm/ast-video.c:90-345 | in every run, whenever the next frame may be a difference the client shows the engine's reference and the engine is configured as the header will say |
| `VideoStream.ClientSeesScreen` | kvm/ast-video.c:181-324 | in every run each ASPEED frame leaves the client with exactly the captured screen, is encoded under the announced settings, and a difference meets a client that shows its base under the same settings |
| `VideoStream.CountsCalls` | kvm/ast-video.c:131-132 | between resets the counter counts the calls, in 32 bits |
| `VideoStream.JpegSchedule` | kvm/ast-video.c:135-141 | JPEGs go out if and only if they are asked for, the call number since the reset is a multiple of 100 and no mode change is reported |
| `VideoStream.FullFrameNext` | kvm/ast-video.c:205-234 | after a reset or a JPEG the next ASPEED frame is full, however many calls later |
| `VideoStream.FullFrameAfterJpeg` | kvm/ast-video.c:312-318 | a JPEG is followed by a full frame |
| `VideoStream.DifferenceRestores` | kvm/ast-video.c:205-234 | were a difference sent instead of a full frame, it would restore a screen if and only if the client already has right every block the screen shares with the engine's reference |
| `VideoStream.FullFrameNeeded` | kvm/ast-video.c:205-234 | it would restore every screen if and only if the client shows all of the reference |
| `VideoStream.JpegNeedsFullFrame` | kvm/ast-video.c:312-318 | after a JPEG the full frame can be spared, for every screen, if and only if the JPEG's screen showed nothing new over the last ASPEED frame |
| `VideoStream.UnconfiguredIsGarbage` | kvm/ast-video.c:147-155 | and without the reconfiguration a difference after a JPEG is not even readable |
| `VideoStream.ResetNeedsFullFrame` | kvm/ast-video.c:90-130 | after a reset it can be spared if and only if the client shows all of whatever reference the reset left |
| `PowerHistory.WriteRotates` | KETI-Edge/psu_server.cpp:306-314 | overwriting a full table drops the oldest row and puts the new one last, read from the cursor round |
| `PowerHistory.FillKeepsLast` | KETI-Edge/psu_server.cpp:302-314 | after any number of writes a table holds exactly the last limit ones, oldest first from the cursor |
| `PowerHistory.FillShape` | KETI-Edge/psu_server.cpp:302-314 | cursor and number of rows in closed form, from the number of writes alone |
| `PowerHistory.Cascade` | KETI-Edge/psu_server.cpp:292-455 | the three nested counters let exactly the calls of the three arithmetic progressions with periods 3, 12 and 132 write |
| `PowerHistory.WritesClosedForm` | KETI-Edge/psu_server.cpp:445-455 | the number of due calls of such a progression in closed form |
| `PowerHistory.WriteCounts` | KETI-Edge/psu_server.cpp:445-455 | after n calls: (n-1)/3 minute, (n-4)/12 hour and (n-16)/132 day writes, 0 below those starts |
| `PowerHistory.PickedAt` | KETI-Edge/psu_server.cpp:292-455 | the i-th sample a table gets is that of call start + i * period |
| `PowerHistory.StoredIsFilled` | KETI-Edge/psu_server.cpp:292-455 | what the counters put in a table is the fill of its own series of samples |
| `PowerHistory.TableHoldsLast` | KETI-Edge/psu_server.cpp:292-439 | after any run each of the tables holds exactly the last samples of its series, its cursor in range |
| `PowerHistory.RowCounts` | KETI-Edge/psu_server.cpp:292-455 | how full each table is after n calls, in numbers: up to 30, 600 and 1440 rows |
| `PowerHistory.Lockstep` | KETI-Edge/psu_server.cpp:292-455 | after as many calls the two supplies' tables of a kind have the same cursor and as many rows |
| `PowerHistory.PowerMonitor.TablesInLockstep` | KETI-Edge/psu_server.cpp:292-455 | so in every reachable state of the monitor all three pairs of tables do |
| `PowerHistory.Table.Put` | KETI-Edge/psu_server.cpp:302-314 | one insert-or-overwrite on the table object |
| `PowerHistory.PowerMonitor.Advance` | KETI-Edge/psu_server.cpp:292-455 | the counters step as the cascade and each of the six tables is written exactly when due, both supplies together |
| `PowerHistory.PowerMonitor.DoStuff` | KETI-Edge/psu_server.cpp:285-455 | a call records both readings, 13 W with the power off counting as 0, and keeps every table equal to what its history says |
| `IpmiMessage.Checksum` | KETI-Edge/msg_session.cpp:6-18 | the signed 8-bit loop returns the start value plus the byte sum modulo 256 |
| `IpmiMessage.IpmiChecksum` | KETI-Edge/msg_session.cpp:20-25 | the result is the two's complement of the byte sum: with it the sum is 0 modulo 256 |
| `IpmiMessage.MsgProcessPacket` | KETI-Edge/msg_session.cpp:27-116 | the response buffer holds exactly the response to the request and the handler's result |
| `IpmiMessage.HandlerGets` | KETI-Edge/msg_session.cpp:67-76 | the handler gets the request's function, its command and the bytes between header and checksum |
| `IpmiMessage.AnswerSent` | KETI-Edge/msg_session.cpp:78-109 | what is sent of its answer: the bytes from the third on, or the code alone for 0xff and 0xfe |
| `IpmiMessage.PackedBytes` | KETI-Edge/msg_session.cpp:58-65 | the two packed header bytes in terms of the request's |
| `IpmiMessage.ResponseChecks` | KETI-Edge/msg_session.cpp:58-108 | in every response the first three bytes and the whole sum to 0, and the trailing byte equals the checksum section 13.8 of IPMI v2.0 takes from byte 3 on |
| `IpmiMessage.ResponseAddress` | KETI-Edge/msg_session.cpp:58-65 | the response goes back to the requester with its sequence number, command and LUNs, under the paired function, which wraps at 63 |
| `Cbc.DecryptEncrypt` | KETI-Edge/rmcp.cpp:521-522 | CBC decryption undoes encryption over any invertible block cipher |
| `RmcpPayload.BuildPayload` | KETI-Edge/rmcp.cpp:478-510 | the loop appends pad bytes 1, 2, 3 ... and the pad count; the length byte is kept in 8 bits |
| `RmcpPayload.PaddedBlocks` | KETI-Edge/rmcp.cpp:480-482 | message, pad and pad count always fill whole 16-byte blocks |
| `RmcpPayload.PaddedBytes` | KETI-Edge/rmcp.cpp:478-510 | the plaintext byte by byte: the message, pad bytes counting up from 1, and their number, the least that fills the last block |
| `RmcpPayload.FrameBytes` | KETI-Edge/rmcp.cpp:529-552 | where head, length, IV, ciphertext, trailer and auth code stand in a packet |
| `RmcpPayload.StripFinds` | KETI-Edge/rmcp.cpp:455 | a message is found in decrypt_out if and only if it is followed there by some pad and, last, the pad count |
| `RmcpPayload.StripPad` | KETI-Edge/rmcp.cpp:448-474 | in memory: the length - 16 bytes of decrypt_out are filled, the 16 bytes after it are overwritten and nothing else changes; the unsigned flag decides between a message inside the array and a read that leaves it |
| `RmcpPayload.ReceiverOverruns` | KETI-Edge/rmcp.cpp:369-453 | for every packet the receiver can work on, AES stores exactly 16 bytes more than decrypt_out has; the pad count is the last byte of the array |
| `RmcpPayload.ReadsInside` | KETI-Edge/rmcp.cpp:455-472 | for every such packet, the bytes read as the message lie inside decrypt_out if and only if the pad count is at most length - 17; beyond that the flag is at least 2^32 - 255 and the program, which has no test, reads that far |
| `RmcpPayload.WildPacket` | KETI-Edge/rmcp.cpp:455-472 | under every cipher and IV one block ending in 255 is such a packet |
| `RmcpPayload.SentReceived` | KETI-Edge/rmcp.cpp:444-541 | of anything this sender sends, the receiver makes the part of the message the sender saw, or nothing it can read; it is never led outside the array |
| `RmcpPayload.SenderFits` | KETI-Edge/rmcp.cpp:478-488 | aes_out is filled exactly if and only if the message length modulo 256 is below 240; otherwise it has no byte and 256 are stored |
| `RmcpPayload.DecryptOutHolds` | KETI-Edge/rmcp.cpp:448-456 | what lands inside decrypt_out is exactly the plaintext, for any plaintext of 1 to 14 blocks and whatever follows the ciphertext, and what the receiver makes of it depends on that alone |
| `RmcpPayload.PayloadRoundTrip` | KETI-Edge/rmcp.cpp:444-541 | read from the length - 16 bytes of decrypt_out alone, a message comes back whole if and only if it has at most 223 bytes |
| `RmcpPayload.ResponseDelivered` | KETI-Edge/rmcp.cpp:474-541 | every response built from the 128-byte buffer is within that bound and fills aes_out exactly |
| `Decimal.StoiOfToString` | KETI-Edge/handler.cpp:2661-2662 | an id read back gives its number if and only if that fits an int; otherwise stoi throws |
| `Decimal.ToStringInjective` | KETI-Edge/handler.cpp:1128-1129 | two numbers never share an id |
| `Decimal.TextOf1900` | KETI-Edge/handler.cpp:1128 | digits are the usual ones, the highest first |
| `NumberSet.NumberPool.Allocate` | libs/redfish/util.cpp:110-131 | returns and inserts the first free number from the last one on, or failing that the first from 1 |
| `NumberSet.NumberPool.Delete` | libs/redfish/util.cpp:139-143 | takes one number out of the set and no other |
| `NumberSet.NextIsUnique` | libs/redfish/util.cpp:110-131 | what Allocate promises leaves exactly one number it can return |
| `NumberSet.ZeroOnlyFirst` | libs/redfish/util.cpp:117-121 | once another number was the last one given out, 0 never is again, even when free |
| `Registry.NameAfterSlash` | libs/redfish/util.cpp:152-156 | the name taken from a URI is what follows its last slash |
| `Registry.Registry.FreeUri` | KETI-Edge/handler.cpp:1127-1131 | a number no member has names no entry in g_record, so a new resource replaces none |
| `Registry.Registry.Enter` | include/redfish/resource.hpp:921-936 | the constructor's entry and the appended member keep record and members in one-to-one correspondence |
| `Registry.Registry.Create` | KETI-Edge/handler.cpp:1127-1140 | a new resource under the allocated number keeps numbers, members and record in bijection |
| `Registry.Registry.RecordAgrees` | KETI-Edge/handler.cpp:2624-2652 | a URI below the collection is on record if and only if the scan for its id finds a member, and then it is that member |
| `Registry.Registry.Erase` | KETI-Edge/handler.cpp:2665-2666 | the destructor and erase take out one member and its own record entry |
| `Registry.Registry.Discard` | KETI-Edge/handler.cpp:2661-2666 | the number freed is the one that was allocated to the erased member |
| `Registry.Registry.Lookup` | KETI-Edge/handler.cpp:2624-2662 | the scan, the record check and stoi agree: on record if and only if found, and then the member's own number or an exception past INT_MAX |
| `Registry.Registry.Remove` | KETI-Edge/handler.cpp:2600-2681 | a delete finds its member before dereferencing it, frees exactly its number and keeps the bijection; an id past INT_MAX throws with nothing changed |
| `Registry.Registry.Assign` | KETI-Edge/handler.cpp:1626-1639 | assigning one resource's fields changes no other |
| `Registry.RemoveUndoesCreate` | KETI-Edge/handler.cpp:2600-2681 | deleting what was just created gives the collection back if and only if its number fits an int |
| `Accounts.RunGood` | KETI-Edge/handler.cpp:1058-2681 | user names stay unique and 1 <= min <= max password length through any interleaving of create, modify, delete and service patches |
| `Accounts.ModifyGood` | KETI-Edge/handler.cpp:1582-1598 | the duplicate scan that skips the edited id is enough, because ids are distinct |
| `Accounts.PatchGood` | KETI-Edge/handler.cpp:1753-1801 | absent lengths read as 0, and every accepted combination keeps 1 <= min <= max |
| `Accounts.FailureChangesNothing` | KETI-Edge/handler.cpp:1510-1801 | a request answered with an error, or that throws, leaves the service as it was |
| `Accounts.OnlyEditorsChange` | KETI-Edge/handler.cpp:1566-1639 | an account differs after a request only if that request modified it and came from its owner or an administrator |
| `Accounts.RolesByAdministrators` | KETI-Edge/handler.cpp:1555-1628 | no request but an administrator's changes the role of any account |
| `Accounts.ModifiedExactly` | KETI-Edge/handler.cpp:1510-1619 | when a modification succeeds: if and only if all that its caller may change is in order and there is something of the kind |
| `Accounts.ModifiedAs` | KETI-Edge/handler.cpp:1626-1639 | and what it leaves, member by member: what was sent where the caller may change it, and what was there everywhere else |
| `Accounts.MadeExactly` | KETI-Edge/handler.cpp:1058-1119 | when an account is made and when the name is a conflict, both if and only if |
| `Accounts.MadeAs` | KETI-Edge/handler.cpp:1121-1140 | the new account member by member |
| `Accounts.RemovedExactly` | KETI-Edge/handler.cpp:2600-2666 | when an account is deleted, when the id throws, and that only that account goes |
| `Accounts.PatchedExactly` | KETI-Edge/handler.cpp:1753-1846 | when the service patch is taken, if and only if |
| `Accounts.PatchedAs` | KETI-Edge/handler.cpp:1753-1842 | every setting ends as given or as it was |
| `Accounts.AccountService.constructor` | KETI-Edge/init.cpp:1485-1499 | the service starts with lengths 6 and 24 and in a good state |
| `Accounts.AccountService.NameInUse` | KETI-Edge/handler.cpp:1582-1598 | the scan finds exactly whether another account has the name |
| `Accounts.AccountService.MakeAccount` | KETI-Edge/handler.cpp:1058-1146 | the service becomes the specified one, with the same answer, under a number no account has |
| `Accounts.AccountService.ModifyAccount` | KETI-Edge/handler.cpp:1510-1650 | role only for administrators, name and password for them or the owner, all or nothing; the object keeps its registry agreement |
| `Accounts.AccountService.RemoveAccount` | KETI-Edge/handler.cpp:2600-2681 | the account goes, with the three possible outcomes |
| `Accounts.AccountService.SetLimits` | KETI-Edge/handler.cpp:1753-1801 | the four branches set the limits exactly to the specified pair, or refuse without a change |
| `Accounts.AccountService.PatchAccountService` | KETI-Edge/handler.cpp:1747-1849 | the whole patch, refused exactly for bad limits or a request that gives nothing |
| `Roles.RoleWithoutRepeats` | KETI-Edge/handler.cpp:1703-1731 | a role ends up without a repeated privilege if and only if it had none and the request repeats only what the role has |
| `Roles.RepeatedPrivilege` | KETI-Edge/handler.cpp:1703-1731 | a new privilege named twice in one request is stored twice |
| `Roles.AskedAgain` | KETI-Edge/handler.cpp:1703-1731 | sending a request again adds nothing |
| `Roles.ExtendedIsSafe` | KETI-Edge/handler.cpp:1703-1731 | a role only ever holds valid privileges, and what it had stays in front |
| `Roles.RoleChanged` | KETI-Edge/handler.cpp:1652-1731 | when a role is changed, if and only if, with the six privileges written out |
| `Roles.RoleCollection.constructor` | KETI-Edge/init.cpp:1539-1576 | the three predefined roles with their privileges, each an object of its own |
| `Roles.RoleCollection.ModifyRole` | KETI-Edge/handler.cpp:1652-1745 | only an administrator, only valid privileges, appended in order; refused, or thrown out for an element that is no text, no role changes |
| `Roles.MergeKeeps` | KETI-Edge/handler.cpp:2034-2048 | the NTP list keeps its front, holds exactly old and requested servers, and never gains a repeat |
| `Roles.LoopsAgree` | KETI-Edge/handler.cpp:2034-2048 | the role loop and the NTP loop store the same list if and only if the request repeats nothing new |
| `Roles.NothingMerged` | KETI-Edge/handler.cpp:2038-2050 | the server list stays as it was if and only if every server the loop gets to is in it |
| `Roles.NetworkProtocol.PatchNtp` | KETI-Edge/handler.cpp:2022-2053 | the loops store the merge with the texts before the first element that is none, where it throws with those and the plain settings stored; nothing given, nothing changed |
| `Roles.NtpUnchanged` | KETI-Edge/handler.cpp:2022-2053 | a request, thrown or not, changes nothing if and only if both plain settings are absent or as before and the list has every server the loop gets to |
| `Roles.NtpSettings` | KETI-Edge/handler.cpp:2027-2035 | the plain settings end as given or as they were |
| `Roles.ThrownHalfway` | KETI-Edge/handler.cpp:2022-2053 | a concrete request that throws and has changed every setting |
| `Subscriptions.StepKeepsPolicies` | KETI-Edge/handler.cpp:1236-1240 | one request keeps all retry policies among the three known ones if and only if it is not a create request with another policy |
| `Subscriptions.UnknownPolicy` | KETI-Edge/handler.cpp:1236-1240 | a concrete create request that is accepted and leaves an unknown policy |
| `Subscriptions.RunKeepsPolicies` | KETI-Edge/handler.cpp:2514-2552 | over any run without such a request every policy stays known |
| `Subscriptions.RunKeepsSettings` | KETI-Edge/handler.cpp:2464-2512 | attempts stay at least 0 and the interval at least 1 in every run |
| `Subscriptions.FailureChangesNothing` | KETI-Edge/handler.cpp:2464-2552 | a refused request changes no subscription and no setting |
| `Subscriptions.MadeAs` | KETI-Edge/handler.cpp:1211-1266 | when a subscription is made, and its members with their defaults |
| `Subscriptions.PatchedAs` | KETI-Edge/handler.cpp:2514-2545 | when one is changed, if and only if, and what it leaves |
| `Subscriptions.RemovedExactly` | KETI-Edge/handler.cpp:2712-2740 | when one is deleted, when the id throws, and that only that one goes |
| `Subscriptions.SettingsAs` | KETI-Edge/handler.cpp:2464-2503 | when the settings are changed, if and only if, and to what |
| `Subscriptions.EventService.constructor` | KETI-Edge/init.cpp:1420-1459 | the service starts with subscription 1 and settings 3 and 60 |
| `Subscriptions.EventService.MakeSubscription` | KETI-Edge/handler.cpp:1211-1277 | destination and protocol are required, the rest has defaults; the registry agreement is kept |
| `Subscriptions.EventService.RemoveSubscription` | KETI-Edge/handler.cpp:2712-2746 | the subscription goes, its number is free again, the agreement is kept |
| `Subscriptions.EventService.PatchSubscription` | KETI-Edge/handler.cpp:2514-2552 | context and a known policy, all or nothing |
| `Subscriptions.EventService.PatchEventService` | KETI-Edge/handler.cpp:2464-2512 | all values are checked before any is stored |
| `Sessions.RunWithin` | include/redfish/resource.hpp:1732-1738 | in every run no session has more time left than the timeout now in force |
| `Sessions.LoginSucceeds` | KETI-Edge/handler.cpp:1148-1190 | a login succeeds if and only if the service is enabled and the password given is that of the first account with the name given |
| `Sessions.LoginOpens` | KETI-Edge/handler.cpp:1192-1202 | it opens one session for that account with the whole timeout; a refused one changes nothing |
| `Sessions.TokenAdmitted` | libs/redfish/resource.cpp:4156-4182 | a token is valid if and only if its first session has time left |
| `Sessions.LogoutSucceeds` | KETI-Edge/handler.cpp:2683-2704 | a logout succeeds if and only if the service is enabled and the token valid, and sets that session's time to 0 and nothing else |
| `Sessions.PatchedRows` | KETI-Edge/handler.cpp:1858-1877 | a new timeout leaves every session the smaller of the two times and all else |
| `Sessions.RunRemain` | libs/redfish/util.cpp:64-73 | a session loses one second per turn of its timer and never gains any; undisturbed it loses no other |
| `Sessions.SessionExpires` | libs/redfish/resource.cpp:607-685 | a session has no time left once its timer has turned as often as the timeout in force at the start |
| `Sessions.RefusedForGood` | libs/redfish/resource.cpp:4156-4182 | a token stays refused through every run without a login given it if and only if no session can revive it: none with time left, or one in front of it whose number is past INT_MAX |
| `Sessions.LoggedOutForGood` | KETI-Edge/handler.cpp:2683-2710 | a logout holds through every such run if and only if, before it, no later session could revive the token, and so wherever tokens are distinct |
| `Sessions.SharedTokenRevives` | KETI-Edge/handler.cpp:2683-2710 | two sessions of one token: refused after the logout, accepted again one timer turn later |
| `Sessions.RunStaysDead` | libs/redfish/resource.cpp:4156-4182 | a token none of whose sessions has time left gets none back without a login given it |
| `Sessions.SessionService.constructor` | KETI-Edge/init.cpp:1642-1653 | the service starts empty with a timeout of 86400 |
| `Sessions.SessionService.IsSessionValid` | libs/redfish/resource.cpp:4156-4182 | valid if and only if the first session with the token has time left; its record entry always exists |
| `Sessions.SessionService.CheckLogin` | KETI-Edge/handler.cpp:1148-1190 | Created if and only if the service is enabled and the first account of the name given has the password given |
| `Sessions.SessionService.MakeSession` | KETI-Edge/handler.cpp:1148-1209 | Created if and only if the login is good, with exactly one session more, for that account, under a free number and with the full timeout; otherwise BadRequest and no session |
| `Sessions.SessionService.TimerTurn` | libs/redfish/resource.cpp:607-685 | one second less, or with none left the session is erased and its number freed |
| `Sessions.SessionService.RemoveSession` | KETI-Edge/handler.cpp:2683-2710 | logout sets the time of exactly the token's session to 0 |
| `Sessions.SessionService.ClampAll` | KETI-Edge/handler.cpp:1864-1869 | the loop lowers every session to the new timeout and raises none |
| `Sessions.SessionService.PatchSessionService` | KETI-Edge/handler.cpp:1851-1886 | the timeout and the switch, with sessions clamped in the same request |
| `ResourcePatch.Systems.PatchSystem` | KETI-Edge/handler.cpp:2258-2326 | refused, and then without effect, if and only if the lamp text is unknown or nothing is given; otherwise every given member is set |
| `ResourcePatch.Chassis.PatchChassis` | KETI-Edge/handler.cpp:2328-2425 | the same for the chassis with its nested location |
| `ResourcePatch.LampTexts` | KETI-Edge/handler.cpp:2268-2276 | the three lamp texts |
| `ResourcePatch.SystemMembers` | KETI-Edge/handler.cpp:2266-2318 | every member of the system ends as given or as it was |
| `ResourcePatch.ChassisMembers` | KETI-Edge/handler.cpp:2336-2356 | the same for the chassis |
| `ResourcePatch.PostalMembers` | KETI-Edge/handler.cpp:2357-2393 | and its postal address |
| `ResourcePatch.PlacementMembers` | KETI-Edge/handler.cpp:2395-2418 | and its placement |
| `ResourcePatch.SystemPatchesCompose` | KETI-Edge/handler.cpp:2258-2326 | two patches in a row are one with the members of both, the later winning |
| `ResourcePatch.ChassisPatchesCompose` | KETI-Edge/handler.cpp:2328-2425 | the same for the chassis |

## Left out

- Sockets, ioctl, sqlite, HTTP and JSON text, files, logging, threads: messages, clocks, tokens, handler results and
  request members are parameters, an sqlite table is a row sequence with the ids 1, 2, 3 and so on, and each handler
  call is one step. A request member that get_value_from_json_key finds of the wrong type counts as absent, as it does
  there; elements of an array, which as_string() reads, are modelled with those that are no text.
- Packets a node sends to itself: the loop at KETI-Edge/lssdp.cpp:346-352 only leaves itself, so such packets are read
  like any other.
- SsdpParser.PacketParser: takes datagrams of at most 2047 bytes; a full buffer has no NUL for strlen to stop at.
- SsdpParser.ParseFieldLine: is split into FindEntry and StoreEntry, where the source has one function; the buffer is a
  string and the packet's buffers are arrays.
- NeighborList.NeighborRegister.Add: does not model malloc failing.
- NeighborList.NeighborRegister.UpdateNode: holds a node's fields as strings, as strcmp sees them; the bytes after the
  NUL are not modelled.
- NeighborTable.SilentPeerDropped: asks that the peer's age fits a C long; DroppedExactlyWhen gives the rule without it.
- SsdpNode.LssdpCtx.SocketRead: recvfrom failing, and sending the reply, are not modelled.
- VideoStream.VideoServer.VideoCapture: frame geometry, block counts, the RC4 key stream and the other header fields are
  not modelled; a frame is a row of blocks, and the mode change flag is 0 or 1. Only the default build, without NON_AUTO
  and CRT, is modelled.
- PowerHistory.PowerMonitor.DoStuff: starts from empty tables. On tables with rows find_first_index takes the newest
  row's id as the cursor, so a restart is not covered. The local time text is a parameter.
- IpmiMessage.MsgProcessPacket: takes requests of 7 to 133 bytes; shorter or longer ones are copied past a buffer's end
  or with a negative length. The handler is a function of the request, and unless its code is 0xff or 0xfe it is taken
  to leave a length of 2 to 128 in its 128-byte buffer; any other would be copied with a negative length or from past
  the buffer.
- RmcpPayload.PayloadRoundTrip: supposes that the 16 bytes written past decrypt_out, whose effect C leaves undefined,
  disturb nothing the receiver still uses; ReceiverOverruns states that they are written. A read outside the array is
  the outcome WildRead, with the count but not what is found there. A length that is no multiple of 16, or that leaves
  no room in decrypt_out or reaches past the packet, counts as unreadable. The sending branch is paired with the
  receiving branch of the same file. The handshake, the session and sequence checks, the test of the auth code, HMAC,
  AES itself and random numbers are not part of this model; the auth code is any 12 bytes or more, and the head and the
  session prefix matter by their length only.
- Registry.Registry.Remove: stands for remove_account, remove_subscription and the expiry of a session, which differ in
  the order of scan and record check and in the spelling of stoi; the iterator is an index.
- Registry.Registry.constructor: starts empty; collections reloaded from saved files and their insert_numset_num calls
  are not modelled, nor is the allocation loop that never ends once every number is taken.
- Accounts.AccountService.constructor: starts without the accounts that init_account_service takes over from the IPMI
  users, whose names are not checked there; RunGood holds from any state with distinct names.
- Accounts.AccountService.MakeAccount: RoleId and Enabled of the wrong type, which throw before any change, are not
  modelled.
- Accounts.AccountService.ModifyAccount: the mirrored ipmiUser table is not modelled, and the caller is given as an
  account id with a role id; a caller whose role pointer is null, or whose account is gone, is not modelled.
- Sessions.SessionService.MakeSession: a session keeps the account it was opened for as it was then, not a
  pointer to it.
- Sessions.SessionService.TimerTurn: the timer is a sequence of turns without a duration.
- VideoStream.JpegNeedsFullFrame: is about a client that did not change its settings in the reply to the JPEG; after a
  change ResetNeedsFullFrame applies.
- Roles.RoleCollection.ModifyRole: creating further roles is not modelled, nor an AssignedPrivileges that is no array.
- Tasks, certificates, virtual media, ethernet interfaces, the manager and power patches, URI routing: they would only
  add plumbing or easy members.
- Restart and saving of resources as JSON files.

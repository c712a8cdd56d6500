# Firmware protocols, memory layout and build scripts: a verified model

A Dafny 4.11 model of the parts of this firmware tree that are algorithms, and proofs of what they promise.
`dafny verify dfyconfig.toml` checks all of it.

- **The GDB stub.** `PacketLink` says what SendPacket and ReceivePacket make of a byte stream; `StopAndWait` puts
  both at the ends of a line that damages frames and lets a scheduler move either side one character at a time.
  `RemoteMemory` is the `m` and `M` commands on a 64-bit memory, `FileIo` the File-I/O exchange of GdbRead and
  GdbWrite without callbacks. `Interleaving` gives the same calls with the callbacks that a schedule fires between
  their steps, and says when the two agree; `GdbStub` is the stub itself, a class whose methods are interrupted at every
  character and are proved to do what `Interleaving` says. `LibraryList` is binary escaping and the resumable library
  enumerator. `HexText` is the digit printer and the library parser both rely on.
- **ARM early memory.** `MemoryHobs` splits the firmware device out of the resource descriptors and places the UEFI
  region; `TemporaryRam` moves stack and heap to permanent RAM.
- **Build scripts.** `DosFormat` is the five rewriting passes of FormatDosFiles.py, `DiffScanner` the diff scanner of
  PatchCheck.py with the exact language it accepts, `AnonymousLabels` the label renaming of ConvertMasmToNasm.py.
- **Device tree and SMBIOS.** `DeviceTree` enumerates nodes, decodes memory nodes and fills the memory map;
  `SmbiosRecord` packs a structure and its strings; `StringLists` is the NUL-terminated list both use.

Loops and in-place updates of the sources are methods, proved against specification functions; what the sources
promise is then proved about those functions. Words are 64 bits wide and wrap; UINTN is 64 bits, alignment is that of
AArch64. Input that has not arrived is an empty rest of the input: a call that waits for it returns a value that says so.
A failed ASSERT is a result of its own.

## Where code and documentation part

The model follows the code, but for the bad-digit test below, which is modelled as it is meant.

- GdbRead's description promises -1 on error. The reply's code is read by a parser of unsigned hexadecimal, so
  `F-1` gives 0. `FileIo.ReplyCodeIsExact` has the exact condition.
- A library reply should start with a type byte. The escape loop starts again at the front of the buffer, so the type
  byte is overwritten, but it is still counted. `LibraryList.OffsetCountsTypeBytes` says what that does to a client
  that counts the bytes it gets.
- GdbWrite does not raise the flag that keeps callbacks off the line. It is safe exactly as long as no callback finds a
  character waiting with no break pending (`GdbStub.Stub.GdbWrite`, `Interleaving.TakenIffExposed`); one that strikes
  when the reply has arrived makes it wait for ever (`Interleaving.PlainReplyIsLost`, `GdbStub.LosingRun`).
- ReceivePacket's test for a full buffer cannot fire: its loop stops one short. `PacketLink.CapacityIsExact` and the
  full-buffer case of `PacketLink.DeliveredMeansPacket` say what happens instead.
- The bad-digit test of TransferFromInBufToMem compares a CHAR8 with 0. It is modelled as meant, with CHAR8 signed;
  where CHAR8 is unsigned it never fires.
- MemoryPeim computes the tops of memory, of the device and of each block in 64 bits, so a range that ends with the
  address space has a top of 0. `MemoryHobs.HobConservation` has the exact condition under which it works all the same.
  It fails in three ways: a device below the top of such memory is not cut out (`MemoryHobs.DeviceIsNotCutOut`); such
  memory declared in several blocks is not recognised and is declared again (`MemoryHobs.MemoryIsDeclaredTwice`); and a
  device that ends at 2^64 passes for one inside memory that ends below it (`MemoryHobs.MemoryIsStretched`). A device
  that ends with memory at 2^64 is cut out rightly if the first block that starts at its base or below reaches the end.
- The converter numbers anonymous labels without regard to named ones, while NASM joins a local label to the last
  named one before it, which may have code behind it on its line. `AnonymousLabels.ReferencesResolve` has the exact
  condition; which words NASM reserves, so that they name nothing, is a parameter of it.
- PatchCheck.py reads a file's name up to the first blank, so a name that has one is cut
  (`DiffScanner.HeadNamesFile`), and it takes git's `dissimilarity index` line for a format error
  (`DiffScanner.GitHeadersAreTaken`).
- FormatDosFiles.py takes a file that ends in a lone CR for one that is ended, and does not trim in front of that CR
  (`DosFormat.FormatTidiesLines`).
- The library enumerator tests the length of a line before it is escaped, and escaping can double it.
  `LibraryList.DocumentFits` has the exact condition, `LibraryList.EscapedLineOverruns` a table that fails it.

## Model

| member | source | states |
|---|---|---|
| HexText.HexCharToInt | edk2-staging-TDVF/EmbeddedPkg/GdbStub/GdbStub.c:413-427 | every byte maps to -1 or to a value below 16; UpperDigit and LowerDigit are its right inverses |
| HexText.DigitsInOrder | edk2-staging-TDVF/EmbeddedPkg/GdbStub/GdbStub.c:41 | the digits printed for 0 to 15 are those of the table, upper or lower case, in order |
| HexText.ParserReadsEverySpelling | edk2-staging-TDVF/MdePkg/Library/BaseLib/SafeString.c:2342-2414 | any spelling of a number (either case, leading zeros), followed by a non-digit other than x, is read as its positional value, saturated at the largest UINTN |
| HexText.ParserSkipsBlanks | edk2-staging-TDVF/MdePkg/Library/BaseLib/SafeString.c:2366-2410 | blanks and zeros in front of the digits change nothing, and the first character that is no digit ends the number |
| HexText.ParserTakesPrefix | edk2-staging-TDVF/MdePkg/Library/BaseLib/SafeString.c:2377-2410 | an x in front of the digits is skipped if a zero stands before it, and makes the number 0 otherwise |
| HexText.TwoDigits | edk2-staging-TDVF/EmbeddedPkg/GdbStub/GdbStub.c:307-308 | the two checksum digits printed for a byte are read back as that byte, for all 256 |
| PacketLink.SendingUntilAck | edk2-staging-TDVF/EmbeddedPkg/GdbStub/GdbStub.c:287-313 | with k answers that are not '+' and then a '+', and k below the retry count, exactly k + 1 frames are sent and the input behind the '+' is left |
| PacketLink.SendingGivesUp | edk2-staging-TDVF/EmbeddedPkg/GdbStub/GdbStub.c:292-295 | with refusals only, exactly the retry count of frames is sent, one answer read for each |
| PacketLink.PacketIsJudged | edk2-staging-TDVF/EmbeddedPkg/GdbStub/GdbStub.c:354-386 | a packet that fits is delivered with '+' if its digits match its text and refused with '-' if not, wherever in an unfinished packet or between packets the receiver stood |
| PacketLink.AbandonedLeaveStartable | edk2-staging-TDVF/EmbeddedPkg/GdbStub/GdbStub.c:353-358 | any number of packets given up before their '#' draw no answer and leave the receiver ready for a new start |
| PacketLink.FrameRoundTrip | edk2-staging-TDVF/EmbeddedPkg/GdbStub/GdbStub.c:346-387 | after '$'-free noise and abandoned starts, a frame delivers exactly its payload, is answered by one '+', and is read exactly to its end |
| PacketLink.DeliveredMeansPacket | edk2-staging-TDVF/EmbeddedPkg/GdbStub/GdbStub.c:346-387 | converse: what has been read when a text is delivered ends in a packet with that text and a matching checksum (or in a text that filled the buffer and two characters read as its checksum) |
| PacketLink.CapacityIsExact | edk2-staging-TDVF/EmbeddedPkg/GdbStub/GdbStub.c:354-370 | a frame is delivered and read to its end if and only if the payload leaves two bytes of the buffer free |
| PacketLink.OneWrongByteIsRefused | edk2-staging-TDVF/EmbeddedPkg/GdbStub/GdbStub.c:354-386 | replacing any one payload byte by another that is not '$' or '#' always draws '-' and delivers nothing |
| StopAndWait.MoveKeepsInv | edk2-staging-TDVF/EmbeddedPkg/GdbStub/GdbStub.c:287-390 | every single step of either side, in any order, keeps the invariant that ties answers, pending characters and attempts together |
| StopAndWait.RunIsBounded | edk2-staging-TDVF/EmbeddedPkg/GdbStub/GdbStub.c:287-390 | no schedule of the two sides is longer than a bound fixed at the start |
| StopAndWait.NeverStuckMidway | edk2-staging-TDVF/EmbeddedPkg/GdbStub/GdbStub.c:287-390 | until SendPacket has returned, one of the two sides can move |
| StopAndWait.StopAndWaitWorks | edk2-staging-TDVF/EmbeddedPkg/GdbStub/GdbStub.c:274-390 | for every schedule: a run that cannot go on has sent n + 1 frames for n damaged ones, the answers were n times '-' and one '+', the payload was delivered and the line is empty; or, with n not below the retry count, exactly that many frames were sent and nothing was delivered |
| StopAndWait.RunIsOneOfSendPacket | edk2-staging-TDVF/EmbeddedPkg/GdbStub/GdbStub.c:287-313 | the frames and the end of such a run are those SendPacket has on the answers of the run |
| RemoteMemory.PokeAt | edk2-staging-TDVF/EmbeddedPkg/GdbStub/GdbStub.c:194-204 | storing data changes the bytes of [address, address + length), wrapping at 2^64, to the data and no others |
| RemoteMemory.PeekAfterPoke | edk2-staging-TDVF/EmbeddedPkg/GdbStub/GdbStub.c:234-251 | what was stored is what is read, at every address |
| RemoteMemory.GoodPrefixIsMaximal | edk2-staging-TDVF/EmbeddedPkg/GdbStub/GdbStub.c:194-204 | the good prefix of a text holds what its digit pairs spell and ends only in front of a bad pair or at the length asked for |
| RemoteMemory.StoreWritesGoodPrefix | edk2-staging-TDVF/EmbeddedPkg/GdbStub/GdbStub.c:184-207 | exactly the bytes in front of the first bad pair are stored; the transfer succeeds if and only if there is none among those asked for |
| RemoteMemory.ErrorIsRead | edk2-staging-TDVF/EmbeddedPkg/GdbStub/GdbStub.c:441-452 | an error reply is an E and two digits that are read back as the error number, for all 256 |
| RemoteMemory.FrameByExample | edk2-staging-TDVF/EmbeddedPkg/GdbStub/GdbStub.c:297-308 | the frame of OK is $OK#9A |
| RemoteMemory.PacketsByExample | edk2-staging-TDVF/EmbeddedPkg/GdbStub/GdbStub.c:604-712 | M10,2:ABcd stores two bytes and is answered OK, and m10,2 is then answered abcd |
| RemoteMemory.WritePacketIsRead | edk2-staging-TDVF/EmbeddedPkg/GdbStub/GdbStub.c:670-711 | an M packet with any spelling of address and length is taken apart at its separators, and refused unless its text is as long as twice the length (modulo 2^64) |
| RemoteMemory.WritePacketIsRefused | edk2-staging-TDVF/EmbeddedPkg/GdbStub/GdbStub.c:685-710 | of an M packet an address of 32 characters or more is refused by E0B, then a length of 32 or more by E0C, then data of the wrong size by E0F; memory is left alone |
| RemoteMemory.ReadPacketIsRead | edk2-staging-TDVF/EmbeddedPkg/GdbStub/GdbStub.c:616-642 | an m packet with any spelling of address and length reads that range |
| RemoteMemory.ReadPacketIsRefused | edk2-staging-TDVF/EmbeddedPkg/GdbStub/GdbStub.c:604-643 | of an m packet an address of 32 characters or more is refused by E0B, then a length of 32 or more by E0D, then an invalid address by E0E; memory is left alone |
| RemoteMemory.OnlyValidMemoryIsRead | edk2-staging-TDVF/EmbeddedPkg/GdbStub/GdbStub.c:229-254 | for every spelling: an m packet for an invalid address is answered E0E and leaves memory alone, and one that fits the output buffer is answered by the digits of memory if and only if the address is valid |
| RemoteMemory.BadPairStops | edk2-staging-TDVF/EmbeddedPkg/GdbStub/GdbStub.c:184-207 | on a bad pair the packet stores the bytes before it and is answered E0E, otherwise OK, also when the doubled length wraps |
| RemoteMemory.MemoryRoundTrip | edk2-staging-TDVF/EmbeddedPkg/GdbStub/GdbStub.c:604-712 | for all addresses, data whose digits fit the output buffer, and spellings: M stores exactly the data and is answered OK, and m is then answered by the data's digits |
| RemoteMemory.PrintedMemoryRoundTrip | edk2-staging-TDVF/EmbeddedPkg/GdbStub/GdbStub.c:604-712 | the same for the packets of a debugger that prints address and length plainly, whatever they are |
| FileIo.FReplyIsRead | edk2-staging-TDVF/EmbeddedPkg/GdbStub/SerialIo.c:63-98 | an F reply of any form gives back its numbers in any spelling: an error number that is left out is 0, a code behind a sign is read as 0, and the break flag is up exactly if the reply carries ,C |
| FileIo.ReplyCodeIsExact | edk2-staging-TDVF/EmbeddedPkg/GdbStub/SerialIo.c:76 | exact condition on the documented return code, whatever follows the number behind a comma or nothing: it is the number in the reply if and only if that is zero, or has no sign and fits a signed word; a failure reported as F-1 is read as 0 |
| FileIo.RequestIsRead | edk2-staging-TDVF/EmbeddedPkg/GdbStub/SerialIo.c:134 | for all arguments a debugger reads the request back: the word Fread or Fwrite, and descriptor, buffer and count modulo 2^32 in that order |
| FileIo.ServePerformsCommands | edk2-staging-TDVF/EmbeddedPkg/GdbStub/SerialIo.c:142-168 | a command loop that is sent any number of M packets with good or bad data (GdbRead), m packets with valid or invalid addresses (GdbWrite) and packets it does not know, and then the F reply, performs and answers them in order, the unknown ones by an empty packet, and ends with that reply |
| FileIo.ExchangeIsServed | edk2-staging-TDVF/EmbeddedPkg/GdbStub/SerialIo.c:134-180 | a whole call as the debugger serves it, with a reply of any form, success or failure: the code returned is the reply's as it is read, the memory commands are performed and answered in order, an error number is echoed once, and nothing of the exchange stays on the line |
| FileIo.PrintedReplyIsServed | edk2-staging-TDVF/EmbeddedPkg/GdbStub/SerialIo.c:134-180 | the same for every code of either sign and every error number, or none, printed plainly |
| Interleaving.TakenIffExposed | edk2-staging-TDVF/EmbeddedPkg/GdbStub/GdbStub.c:1219-1240 | exact condition: over any stretch of any run, callbacks take characters if and only if one of them, with the F-packet flag down and no break pending, finds a character waiting |
| Interleaving.TransmittedRefines | edk2-staging-TDVF/EmbeddedPkg/GdbStub/GdbStub.c:274-314 | SendPacket under any schedule of callbacks is the callback-free one unless a callback took a character |
| Interleaving.ReceivedRefines | edk2-staging-TDVF/EmbeddedPkg/GdbStub/GdbStub.c:333-390 | ReceivePacket under any schedule of callbacks is the callback-free one unless a callback took a character |
| Interleaving.ServedRefines | edk2-staging-TDVF/EmbeddedPkg/GdbStub/SerialIo.c:142-168 | the command loop under any schedule of callbacks is the callback-free one unless a callback took a character |
| Interleaving.QuietKeeps | edk2-staging-TDVF/EmbeddedPkg/GdbStub/GdbStub.c:1219-1250 | with the F-packet flag up or no callback due, callbacks take nothing and make a step only for a break that was pending before |
| Interleaving.QuietPackets | edk2-staging-TDVF/EmbeddedPkg/GdbStub/GdbStub.c:274-390 | with the F-packet flag up or no callback due, SendPacket and ReceivePacket are the callback-free ones |
| Interleaving.ExchangedRefines | edk2-staging-TDVF/EmbeddedPkg/GdbStub/SerialIo.c:113-261 | a whole GdbRead or GdbWrite, for every schedule and either state of the flag: if callbacks took no character, line, memory and result are those of the callback-free call; with the flag up they take none, and one step is made or owed exactly for a Ctrl-C in the reply |
| Interleaving.ReplyIsLost | edk2-staging-TDVF/EmbeddedPkg/GdbStub/SerialIo.c:196-261 | with the flag down, one callback that strikes between the ack and the reply takes the whole reply, and the call waits for ever |
| Interleaving.PlainReplyIsLost | edk2-staging-TDVF/EmbeddedPkg/GdbStub/SerialIo.c:196-261 | for every reply the debugger can make, with or without sign and error number: without callbacks the call returns its code, with that one callback it never returns |
| Interleaving.EveryBreakStepsOnce | edk2-staging-TDVF/EmbeddedPkg/GdbStub/GdbStub.c:1219-1250 | over any run, the calls of AddSingleStep and the one still owed are as many as the breaks asked for while none was pending |
| GdbStub.Stub.TakePending | edk2-staging-TDVF/EmbeddedPkg/GdbStub/GdbStub.c:1224-1239 | the callback takes what has arrived up to and including the first Ctrl-C, and raises the flag exactly if it met one |
| GdbStub.Stub.GdbPeriodicCallBack | edk2-staging-TDVF/EmbeddedPkg/GdbStub/GdbStub.c:1208-1251 | it takes characters only if neither flag is up, steps exactly if a break was pending or met, and leaves the break flag down |
| GdbStub.Stub.Interrupts | edk2-staging-TDVF/EmbeddedPkg/GdbStub/GdbStub.c:1208-1251 | whatever callbacks are due at a point run there, in order, flag up or down |
| GdbStub.Stub.PutFrame | edk2-staging-TDVF/EmbeddedPkg/GdbStub/GdbStub.c:297-308 | one pass of the send loop writes exactly the frame |
| GdbStub.Stub.SendPacket | edk2-staging-TDVF/EmbeddedPkg/GdbStub/GdbStub.c:274-314 | frames written, input left, count returned and callbacks run are those of the sending specification, under any schedule |
| GdbStub.Stub.ReceivePacket | edk2-staging-TDVF/EmbeddedPkg/GdbStub/GdbStub.c:333-390 | text and NUL in the buffer, answers written, input left and callbacks run are those of the listening specification, under any schedule |
| GdbStub.Stub.CollectText | edk2-staging-TDVF/EmbeddedPkg/GdbStub/GdbStub.c:353-366 | the collecting loop holds the text so far and its checksum, and starts over at every '$' |
| GdbStub.Stub.SendError | edk2-staging-TDVF/EmbeddedPkg/GdbStub/GdbStub.c:441-452 | one error packet with the two upper-case digits of the number is transmitted |
| GdbStub.Stub.TransferFromInBufToMem | edk2-staging-TDVF/EmbeddedPkg/GdbStub/GdbStub.c:184-207 | memory, reply and line are those of WriteIn |
| GdbStub.Stub.TransferFromMemToOutBufAndSend | edk2-staging-TDVF/EmbeddedPkg/GdbStub/GdbStub.c:218-255 | the reply is the digits of the bytes in memory, or the error for an invalid address |
| GdbStub.Stub.ReadFromMemory | edk2-staging-TDVF/EmbeddedPkg/GdbStub/GdbStub.c:604-643 | every branch of the m command, with its checks in the source's order |
| GdbStub.Stub.WriteToMemory | edk2-staging-TDVF/EmbeddedPkg/GdbStub/GdbStub.c:651-712 | every branch of the M command, with its checks in the source's order |
| GdbStub.Stub.GdbParseFReplyPacket | edk2-staging-TDVF/EmbeddedPkg/GdbStub/SerialIo.c:63-98 | the parser's result, and the flag raised exactly for ,C |
| GdbStub.Stub.ServeCommands | edk2-staging-TDVF/EmbeddedPkg/GdbStub/SerialIo.c:142-168 | the command loop ends as its specification says, under any schedule |
| GdbStub.Stub.GdbRead | edk2-staging-TDVF/EmbeddedPkg/GdbStub/SerialIo.c:113-181 | interleaving safety: for every schedule of callbacks, line, memory and result are those of a specification without callbacks, no character is taken by one, and one AddSingleStep is made or owed exactly for a Ctrl-C in the reply; the first frame asks for Fread with the three arguments |
| GdbStub.Stub.GdbWrite | edk2-staging-TDVF/EmbeddedPkg/GdbStub/SerialIo.c:196-261 | the exact condition for the same: callbacks take characters if and only if one finds both flags down and a character waiting, and if none does, line, memory and result are those of the specification without callbacks; the first frame asks for Fwrite with the three arguments in any case |
| GdbStub.LosingRun | edk2-staging-TDVF/EmbeddedPkg/GdbStub/SerialIo.c:196-261 | a run of GdbWrite that loses its reply and waits for ever, on a line and a schedule on which GdbRead returns 1 |
| LibraryList.EscapeIsInvertible | edk2-staging-TDVF/EmbeddedPkg/GdbStub/GdbStub.c:797-809 | unescaping the escaped bytes gives the text back, for all texts |
| LibraryList.EscapeIsFrameSafe | edk2-staging-TDVF/EmbeddedPkg/GdbStub/GdbStub.c:797-809 | escaped bytes hold no '#', '$' or '*', no NUL that was not there, and are at most twice as many |
| LibraryList.EscapeLeavesTheRest | edk2-staging-TDVF/EmbeddedPkg/GdbStub/GdbStub.c:797-809 | a text without the four special characters is not changed by escaping |
| LibraryList.EscapedTextSurvivesTheLink | edk2-staging-TDVF/EmbeddedPkg/GdbStub/GdbStub.c:797-812 | escape, frame, receive and unescape compose to the identity within the buffer bound |
| LibraryList.ListedImageIsDescribed | edk2-staging-TDVF/EmbeddedPkg/GdbStub/GdbStub.c:1044-1061 | exactly the loaded images with a symbol file name have a line, if it is short enough; read at its quotes, the line gives back the file name and, behind 0x, the load address |
| LibraryList.RefusalText | edk2-staging-TDVF/EmbeddedPkg/GdbStub/GdbStub.c:1023-1031 | a request out of step is answered E1F |
| LibraryList.LinesFromNext | edk2-staging-TDVF/EmbeddedPkg/GdbStub/GdbStub.c:1045-1080 | skipping to the next eligible slot loses no line and repeats none |
| LibraryList.CursorInvariant | edk2-staging-TDVF/EmbeddedPkg/GdbStub/GdbStub.c:1023-1086 | every request keeps saved pointer and index together; the offset grows with every piece and goes back to 0 with the last one and on any request out of step |
| LibraryList.EnumeratorRefinesFilter | edk2-staging-TDVF/EmbeddedPkg/GdbStub/GdbStub.c:1013-1087 | as many in-step requests as eligible slots and two more bring the header, each eligible line once in table order, and the trailer |
| LibraryList.OutOfStepRestarts | edk2-staging-TDVF/EmbeddedPkg/GdbStub/GdbStub.c:1023-1031 | a request out of step is refused and the whole document follows from offset 0 |
| LibraryList.OffsetCountsTypeBytes | edk2-staging-TDVF/EmbeddedPkg/GdbStub/GdbStub.c:795 | the offset expected exceeds the document bytes handed out by one a piece, so a client that counts those bytes is in step only as long as it has none |
| LibraryList.DocumentFits | edk2-staging-TDVF/EmbeddedPkg/GdbStub/GdbStub.c:797-812 | exact condition for every reply of the document to fit the output buffer: every line fits it after escaping |
| LibraryList.EscapedLineOverruns | edk2-staging-TDVF/EmbeddedPkg/GdbStub/GdbStub.c:1061 | a file name of a thousand # makes a line that passes the source's test and overruns the output buffer when escaped |
| LibraryList.LibraryServer.EscapeIntoBuffer | edk2-staging-TDVF/EmbeddedPkg/GdbStub/GdbStub.c:797-811 | the escape loop and its NUL stay in the buffer exactly if the escaped text is shorter than it; then the buffer holds that text and the count is that of the unescaped one, plus one |
| LibraryList.LibraryServer.XferObjectReadResponse | edk2-staging-TDVF/EmbeddedPkg/GdbStub/GdbStub.c:782-815 | the escaped text is transmitted if it fits, without a type byte, and the count returned includes one |
| LibraryList.LibraryServer.SkipToEligible | edk2-staging-TDVF/EmbeddedPkg/GdbStub/GdbStub.c:1044-1081 | the table loop stops at the next slot with a line that fits the buffer, pointer and index together |
| LibraryList.LibraryServer.QxferLibrary | edk2-staging-TDVF/EmbeddedPkg/GdbStub/GdbStub.c:1013-1087 | reply and saved state are those of the enumerator specification for every table, unless the escaped reply overruns the output buffer, and then exactly the call goes astray |
| MemoryHobs.PeiMemory.MemoryPeim | edk2-staging-TDVF/ArmPlatformPkg/MemoryInitPei/MemoryInitPeiLib.c:95-186 | the list becomes the one specified; the final assertion holds exactly if a block holds the device or the device lies outside |
| MemoryHobs.PeiMemory.SplitFirmwareDevice | edk2-staging-TDVF/ArmPlatformPkg/MemoryInitPei/MemoryInitPeiLib.c:131-183 | the first block that holds the device is cut and the pieces appended, in each of the three cases |
| MemoryHobs.PeiMemory.InitializeMemory | edk2-staging-TDVF/ArmPlatformPkg/MemoryInitPei/MemoryInitPeim.c:98-143 | the region is the one specified, or an assertion fails |
| MemoryHobs.DeclaredIsPartition | edk2-staging-TDVF/ArmPlatformPkg/MemoryInitPei/MemoryInitPeiLib.c:95-116 | system memory that was undeclared or partitioned is partitioned after the first step if and only if it was undeclared, ends below 2^64, or is recognised by one whole block or an empty block at 0; otherwise every byte is held twice |
| MemoryHobs.SplitConserves | edk2-staging-TDVF/ArmPlatformPkg/MemoryInitPei/MemoryInitPeiLib.c:138-172 | cutting up a block that holds the device changes neither which bytes are held nor with what attributes, up to the end of the address space |
| MemoryHobs.HobConservation | edk2-staging-TDVF/ArmPlatformPkg/MemoryInitPei/MemoryInitPeiLib.c:95-186 | for memory and device anywhere in the address space: every byte keeps its attributes, system memory is partitioned, one block is exactly the device and the last allocates it (or, with the device outside, nothing more changes) if and only if declared memory is recognised, both tops agree, and a device inside memory lies in one block the split finds |
| MemoryHobs.UndeclaredMemory | edk2-staging-TDVF/ArmPlatformPkg/MemoryInitPei/MemoryInitPeiLib.c:95-186 | for undeclared memory and a device inside it that condition is that memory ends below 2^64 or the device ends at 2^64 |
| MemoryHobs.DeviceIsNotCutOut | edk2-staging-TDVF/ArmPlatformPkg/MemoryInitPei/MemoryInitPeiLib.c:122-128 | failing input: memory up to 2^64 with a device in its middle; the device is neither cut out nor allocated |
| MemoryHobs.MemoryIsDeclaredTwice | edk2-staging-TDVF/ArmPlatformPkg/MemoryInitPei/MemoryInitPeiLib.c:95-116 | failing input: the same memory declared in two blocks is declared a second time |
| MemoryHobs.MemoryIsStretched | edk2-staging-TDVF/ArmPlatformPkg/MemoryInitPei/MemoryInitPeiLib.c:122-172 | failing input: a device that ends at 2^64, above memory, is taken to lie in it and the block of memory is stretched up to it |
| MemoryHobs.UsableTop | edk2-staging-TDVF/ArmPlatformPkg/MemoryInitPei/MemoryInitPeim.c:104-108 | the clamp gives the smaller of the end of memory and the end of allocatable addresses, as a wrapped word |
| MemoryHobs.RegionIsPlacedWell | edk2-staging-TDVF/ArmPlatformPkg/MemoryInitPei/MemoryInitPeim.c:104-134 | the region lies in usable memory and does not meet the device if and only if there is room at the top, which always holds when usable memory and device end below 2^64 |
| MemoryHobs.RegionIsPutHigh | edk2-staging-TDVF/ArmPlatformPkg/MemoryInitPei/MemoryInitPeim.c:112-134 | where the region is put: it ends with usable memory, unless the device lies there and leaves too little room above it; then it ends at the device |
| MemoryHobs.RegionIsUsable | edk2-staging-TDVF/ArmPlatformPkg/MemoryInitPei/MemoryInitPeim.c:104-140 | placement composed with splitting: under the same exact condition, after MemoryPeim the region lies inside one block of system memory that is not the device's |
| TemporaryRam.HeapFits | edk2-staging-TDVF/ArmPlatformPkg/PrePeiCore/PrePeiCore.c:123 | the rounded-up half fits its area exactly if the area is smaller than two bytes or holds one aligned unit |
| TemporaryRam.HeapIsHalf | edk2-staging-TDVF/ArmPlatformPkg/PrePeiCore/PrePeiCore.c:123 | the heap is half of its area, rounded up to the next multiple of 16 |
| TemporaryRam.PrimaryMain | edk2-staging-TDVF/ArmPlatformPkg/PrePeiCore/MainUniCore.c:36-53 | heap and stack tile temporary RAM, and the stack starts where the migration takes the old stack to start |
| TemporaryRam.CopyMem | edk2-staging-TDVF/ArmPlatformPkg/PrePeiCore/PrePeiCore.c:134-139 | overlap-safe copy: the destination becomes the old source, nothing else changes |
| TemporaryRam.PrePeiCoreTemporaryRamSupport | edk2-staging-TDVF/ArmPlatformPkg/PrePeiCore/PrePeiCore.c:108-144 | all of RAM after the move, and the delta given to the stack switch |
| TemporaryRam.AreaIsRotated | edk2-staging-TDVF/ArmPlatformPkg/PrePeiCore/PrePeiCore.c:125-139 | the permanent area becomes old stack then old heap, and everything outside it stays |
| TemporaryRam.StackFollowsPointer | edk2-staging-TDVF/ArmPlatformPkg/PrePeiCore/PrePeiCore.c:134-141 | every old stack byte is found at its address plus the delta, modulo 2^64, inside the new stack |
| TemporaryRam.HeapKeepsItsPlace | edk2-staging-TDVF/ArmPlatformPkg/PrePeiCore/PrePeiCore.c:139 | every old heap byte is at its old place in the new heap |
| DosFormat.PassesAgree | edk2-staging-TDVF/BaseTools/Scripts/FormatDosFiles.py:33-34 | the two line-ending passes agree with the one-scan function behind any character |
| DosFormat.LineEndingPassesAreOneScan | edk2-staging-TDVF/BaseTools/Scripts/FormatDosFiles.py:33-34 | together they put a CR before every LF that has none and change nothing else |
| DosFormat.FormatIsNormal | edk2-staging-TDVF/BaseTools/Scripts/FormatDosFiles.py:33-40 | the result has no bare LF, no tab, no blank before CRLF, and ends in CR or LF unless empty, for all byte strings |
| DosFormat.NormalIffUnchanged | edk2-staging-TDVF/BaseTools/Scripts/FormatDosFiles.py:33-40 | formatting leaves a file alone if and only if it is in normal form |
| DosFormat.FormatIsIdempotent | edk2-staging-TDVF/BaseTools/Scripts/FormatDosFiles.py:33-40 | formatting twice is formatting once |
| DosFormat.FormatKeepsInk | edk2-staging-TDVF/BaseTools/Scripts/FormatDosFiles.py:33-40 | every byte that is not white space stays, in its order |
| DosFormat.FormatTidiesLines | edk2-staging-TDVF/BaseTools/Scripts/FormatDosFiles.py:33-40 | the whole pipeline, line by line, for every file: each line keeps its text without the blanks at its end, with two spaces for each tab, and ends in CRLF, the last one too; only text that a lone CR at the end of the file ends is neither trimmed nor ended |
| DosFormat.EveryFileIsLines | edk2-staging-TDVF/BaseTools/Scripts/FormatDosFiles.py:33-40 | every byte string is made of such lines and a rest without LF |
| DosFormat.TrimRightIsExact | edk2-staging-TDVF/BaseTools/Scripts/FormatDosFiles.py:38 | the blanks a line loses are all those at its end and no others |
| DosFormat.TabIsTwoSpaces | edk2-staging-TDVF/BaseTools/Scripts/FormatDosFiles.py:40 | each tab becomes two spaces, wherever it stands, and nothing else changes |
| DiffScanner.CleanLine | edk2-staging-TDVF/BaseTools/Scripts/PatchCheck.py:459-480 | for every file, text, line ending and both rules: an added line is clean exactly if it ends in CRLF where that is asked for or names a subproject commit, has no tab where none is allowed, no white space at its end, and no old debug macro |
| DiffScanner.ContainsAnywhere | edk2-staging-TDVF/BaseTools/Scripts/PatchCheck.py:469 | a part is found wherever it stands in a text, and only if it does |
| DiffScanner.HeadNamesFile | edk2-staging-TDVF/BaseTools/Scripts/PatchCheck.py:356 | exact condition: the file name is read from the head git prints if and only if it has no blank |
| DiffScanner.RulesByName | edk2-staging-TDVF/BaseTools/Scripts/PatchCheck.py:356-380 | the rules of a file by its name alone: LF is allowed in shell scripts, in three places and in the two files git reads itself, tabs only in those two, and LF in a new submodule |
| DiffScanner.IndexTellsNew | edk2-staging-TDVF/BaseTools/Scripts/PatchCheck.py:437-440 | an index line tells of a new file exactly if the old hash is zeros |
| DiffScanner.GitHeadersAreTaken | edk2-staging-TDVF/BaseTools/Scripts/PatchCheck.py:421-433 | every extended header line git may print is accepted, but for the dissimilarity index of a rewritten file |
| DiffScanner.GitMarksAreTold | edk2-staging-TDVF/BaseTools/Scripts/PatchCheck.py:384-392 | hunk marks, binary marks and diff commands as git prints them are told apart |
| DiffScanner.HunkIsRead | edk2-staging-TDVF/BaseTools/Scripts/PatchCheck.py:405-419 | of a printed hunk every line is accepted, and the texts to be checked are those inserted, without their mark, in order |
| DiffScanner.DiffIsScannedRight | edk2-staging-TDVF/BaseTools/Scripts/PatchCheck.py:309-419 | every diff of the grammar is accepted, exactly the '+' lines of its hunks are checked, in order, each under its own file's rules, and the new binary files are listed |
| DiffScanner.AcceptsExactlyDiffs | edk2-staging-TDVF/BaseTools/Scripts/PatchCheck.py:309-419 | of all sequences of non-empty lines the scanner accepts the printed diffs of the grammar and no others |
| DiffScanner.GitDiffCheck.constructor | edk2-staging-TDVF/BaseTools/Scripts/PatchCheck.py:309-321 | the scan ends, its final state is the specified one, and the verdict is that the format was right and every checked line clean |
| DiffScanner.GitDiffCheck.CheckAll | edk2-staging-TDVF/BaseTools/Scripts/PatchCheck.py:317-320 | the loop ends because every step moves forward, as its assertion says |
| DiffScanner.GitDiffCheck.Run | edk2-staging-TDVF/BaseTools/Scripts/PatchCheck.py:334-419 | one step changes the fields as specified and uses up at least one line |
| DiffScanner.GitDiffCheck.ChangeState | edk2-staging-TDVF/BaseTools/Scripts/PatchCheck.py:337-351 | a new diff, a new hunk or the end of the patch, in the source's order of tests |
| DiffScanner.GitDiffCheck.SearchDiffBehind | edk2-staging-TDVF/BaseTools/Scripts/PatchCheck.py:346-349 | a diff command anywhere behind the end of a patch is a format error, and nothing else there is |
| DiffScanner.GitDiffCheck.CheckAddedLine | edk2-staging-TDVF/BaseTools/Scripts/PatchCheck.py:459-480 | the line is recorded with its file's rules and the verdict drops exactly if the line is not clean |
| StringLists.ListReadsBack | edk2-staging-TDVF/ArmVirtPkg/FdtClientDxe/FdtClientDxe.c:138-144 | a list of proper strings is walked to exactly those strings, in order |
| DeviceTree.EnabledIffOkay | edk2-staging-TDVF/ArmVirtPkg/FdtClientDxe/FdtClientDxe.c:77-103 | a node whose status was written as a string is enabled exactly if it has none, or okay, or ok |
| DeviceTree.CompatibleIffListed | edk2-staging-TDVF/ArmVirtPkg/FdtClientDxe/FdtClientDxe.c:77-144 | a node written from a status and a list of non-empty strings counts as compatible exactly if it is enabled and lists the string |
| DeviceTree.ListsString | edk2-staging-TDVF/ArmVirtPkg/FdtClientDxe/FdtClientDxe.c:138-144 | the pointer loop finds the string exactly if it is among the strings of the property |
| DeviceTree.FindNextCompatibleNode | edk2-staging-TDVF/ArmVirtPkg/FdtClientDxe/FdtClientDxe.c:105-147 | the node returned is the first compatible one behind the given offset; failure means there is none |
| DeviceTree.FirstBehindIsNextMatch | edk2-staging-TDVF/ArmVirtPkg/FdtClientDxe/FdtClientDxe.c:119-146 | an answer of either enumeration extends the list of matches by itself alone; a failure means the list is complete |
| DeviceTree.EnumerateCompatible | edk2-staging-TDVF/ArmVirtPkg/VirtioFdtDxe/VirtioFdtDxe.c:51-55 | FindCompatibleNode and then FindNextCompatibleNode until failure visit exactly the enabled non-root nodes that list the string, each once, in tree order |
| DeviceTree.UsableIffMemory | edk2-staging-TDVF/ArmVirtPkg/FdtClientDxe/FdtClientDxe.c:250-277 | a node whose status and device_type were written as strings is used exactly if it is enabled, its type is memory, and it has a reg of whole 16-byte entries |
| DeviceTree.FindNextMemoryNodeReg | edk2-staging-TDVF/ArmVirtPkg/FdtClientDxe/FdtClientDxe.c:226-283 | the node returned is the first usable memory node behind the given offset |
| DeviceTree.OnlyUsableMemoryIsOffered | edk2-staging-TDVF/ArmVirtPkg/FdtClientDxe/FdtClientDxe.c:250-253 | a disabled node, or one that is no memory, contributes nothing to the ranges asked about |
| DeviceTree.CellRoundTrip | edk2-staging-TDVF/ArmVirtPkg/HighMemDxe/HighMemDxe.c:60 | swapping a little-endian load of a big-endian cell gives the number back, for all 32-bit numbers |
| DeviceTree.RegRoundTrip | edk2-staging-TDVF/ArmVirtPkg/HighMemDxe/HighMemDxe.c:59-68 | the decoder undoes the encoder for all lists of 64-bit bases and sizes |
| DeviceTree.MemoryRangesAsWritten | edk2-staging-TDVF/ArmVirtPkg/HighMemDxe/HighMemDxe.c:49-68 | the ranges decoded over all memory nodes are the ranges written into them, in order |
| DeviceTree.UsefulRangesAreAllAdded | edk2-staging-TDVF/ArmVirtPkg/HighMemDxe/HighMemDxe.c:70-86 | ranges in the address space that meet neither each other nor the map are all added, once, in order |
| DeviceTree.MemoryMap.AddNodeMemory | edk2-staging-TDVF/ArmVirtPkg/HighMemDxe/HighMemDxe.c:59-124 | the inner loop ends at exactly 0; the ranges it has asked about are the node's pairs, each once and in order, and the map is what they make of it |
| DeviceTree.MemoryMap.InitializeHighMemDxe | edk2-staging-TDVF/ArmVirtPkg/HighMemDxe/HighMemDxe.c:49-125 | the ranges asked about are the pairs of every usable memory node, each once and in tree order, taken or not, and the map is what they make of it |
| SmbiosRecord.SizeOf | edk2-staging-TDVF/EmulatorPkg/CpuRuntimeDxe/Cpu.c:184-199 | the size computed is that of structure and string set |
| SmbiosRecord.AppendPack | edk2-staging-TDVF/EmulatorPkg/CpuRuntimeDxe/Cpu.c:209-214 | the append loop lays the strings with their NULs end to end behind the structure |
| SmbiosRecord.LogSmbiosData | edk2-staging-TDVF/EmulatorPkg/CpuRuntimeDxe/Cpu.c:160-228 | the record fills its allocation exactly and is the structure and the string set, two NULs if there are no strings; no record exactly if the pool is too small |
| SmbiosRecord.FirstDoubleNulIsLast | edk2-staging-TDVF/EmulatorPkg/CpuRuntimeDxe/Cpu.c:209-215 | the first two NULs in a row are the last two bytes |
| SmbiosRecord.StringsAreReadBack | edk2-staging-TDVF/EmulatorPkg/CpuRuntimeDxe/Cpu.c:183-215 | reading the set gives the strings back in order exactly if none is empty |
| AnonymousLabels.LabelsAreDistinct | edk2-staging-TDVF/BaseTools/Scripts/ConvertMasmToNasm.py:531-532 | different counts give different names, negative ones included |
| AnonymousLabels.LabelSpellsCount | edk2-staging-TDVF/BaseTools/Scripts/ConvertMasmToNasm.py:531-532 | a label is a period and its count in decimal |
| AnonymousLabels.ConversionRenames | edk2-staging-TDVF/BaseTools/Scripts/ConvertMasmToNasm.py:521-529 | the four replacements rename every reference of either case and touch nothing else |
| AnonymousLabels.Converter.TranslateAsm | edk2-staging-TDVF/BaseTools/Scripts/ConvertMasmToNasm.py:421-423 | a label line takes the next count, any other line is converted under the current one |
| AnonymousLabels.Converter.Convert | edk2-staging-TDVF/BaseTools/Scripts/ConvertMasmToNasm.py:270-292 | the output is that of the specification, from a count of -1 |
| AnonymousLabels.EmittedLine | edk2-staging-TDVF/BaseTools/Scripts/ConvertMasmToNasm.py:270-292 | each output line is told by the number of labels before it |
| AnonymousLabels.EmittedLabelsAreDistinct | edk2-staging-TDVF/BaseTools/Scripts/ConvertMasmToNasm.py:421-423 | no two emitted labels have the same name |
| AnonymousLabels.ReferencesKeepTheirTargets | edk2-staging-TDVF/BaseTools/Scripts/ConvertMasmToNasm.py:521-529 | a label of the output bears the name of a renamed reference if and only if it is the nearest following, or preceding, label the reference stood for |
| AnonymousLabels.ReferencesResolve | edk2-staging-TDVF/BaseTools/Scripts/ConvertMasmToNasm.py:521-529 | under NASM's rule for local labels, whatever words it reserves, a renamed reference resolves to an anonymous label if and only if that is the label it stood for and no named label, with or without code behind it, stands between the two or in front of a backward reference |
| AnonymousLabels.NamedLabelBreaksJump | edk2-staging-TDVF/BaseTools/Scripts/ConvertMasmToNasm.py:521-529 | two short programs, one for each direction, in which the name is emitted but out of scope |

## Left out

- The serial hardware, the GIC, caches, the MMU and boot services: characters come from and go to sequences, and the
  other calls are dropped.
- `c`, `g`, `G`, `P`, `s`, `z`, `Z`, `q` dispatch, T signals and the register files of the stub.
- The PE/COFF debug directory: a slot of the image table has a symbol file name or has none.
- What lies in a packet behind its first NUL, and separators that are missing: the source then reads past the string,
  and the model returns Strayed or Undefined. The same holds for a read that would overflow the output buffer.
- The 32-byte buffers for address and length, which the source fills before it checks their length: the model has the
  check only.
- GdbStub.Stub.GdbRead: says nothing of a run that ends in Strayed beyond what callbacks took, because the source
  promises nothing there.
- Callbacks strike between characters and around the parsing of the reply, not between two assignments of the stub.
- LibraryList.LibraryServer.QxferLibrary: offsets are unbounded, as no document reaches 2^64 bytes; what an escaped line
  overwrites behind the output buffer is not part of the model, which stops there.
- Attachments behind a ';' in an F reply: the protocol defines none for read and write.
- TemporaryRam.PrimaryMain: takes the size of the PPI list as a parameter; CreatePpiList, which copies the list and
  marks its last entry, is not modelled.
- MemoryHobs.HobConservation: memory and device end at 2^64 or below; ranges that run past the end of the address
  space are not considered.
- MemoryHobs.RegionIsUsable: asks for a device no larger than usable memory, so not for one that encloses it, which the
  assertions of InitializeMemory do not exclude.
- The regular expression for old debug macros is a parameter of the diff scanner; splitting text into lines and
  printing are dropped.
- FormatFilesInDir and file access.
- libfdt: a tree is its nodes in increasing order of offset; a property that is a string and lacks its NUL ends with
  the property. Memory attributes set after a range is added are dropped.
- The NULL string array of LogSmbiosData and the SMBIOS protocol it calls.
- AnonymousLabels.Converter.TranslateAsm: has the label case and, of the common conversions, that of anonymous labels;
  the other kinds of lines and conversions are dropped, as is literal text with an '@' in it.
- AnonymousLabels.Converter.Convert: takes lines without indentation and comments, which the source strips and puts back.
- Lines that other conversions rewrite, as PROC, are to be given as they are emitted.

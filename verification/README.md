# Models of `webrtc/base`: streams, codes, logs and caches

A Dafny model of the stateful algorithms in `webrtc/base`, with proofs of what
they promise over every input, every run and every reachable state.

* **Packet framing over TCP** (`Framing`, `FrameFormat`): the socket object
  with its two byte buffers, and a sender, a byte channel and a receiver under
  every interleaving of sends, partial or failed socket writes and arbitrarily
  cut reads.  What the receiver signals is always a prefix of what the sender
  accepted.
* **CRC-32** (`Crc32`): the table-driven checksum equals the bit-at-a-time one,
  and no error burst of up to 32 bits goes unnoticed.
* **Rotating logs** (`StringOrder`, `Decimals`, `LogNames`, `RotatingLog`,
  `LogReader`): which bytes of a session survive rotation, for the plain and for
  the call-session stream, why the file names sort in the right order, and what a
  reader gets back.
* **Bit buffer and Exp-Golomb codes** (`Bits`, `Golomb`, `BitBuffer`): reads and
  writes at any bit offset against one flat run of bits; code words read back in
  sequence.
* **Base64** (`Base64`, `Base64Decoder`, `Base64Verdicts`): what the decoder uses,
  returns and accepts under all 27 mode combinations; in the strictest one it
  accepts exactly the encoder's outputs.
* **Disk cache** (`DiskEntries`, `DiskFiles`, `Eviction`, `EvictionTurns`,
  `DiskCache`): exact accounting over locks, streams, files and evictions;
  evictions take the least recently modified evictable entries; and exactly when
  the scan for them goes wrong.
* **Byte buffer** (`ByteOrder`, `ByteBuffer`),
  **packet queue** (`BufferQueue`), **URLs** (`Url`) and **bandwidth smoothing**
  (`Smoother`).

Code that changes objects in place is modelled by classes and arrays whose
methods are tied to functions on values; the results over whole runs are lemmas
about those functions.  Answers of the outside world (how many bytes a socket
takes, which file operations succeed, file sizes, clock readings) are parameters
or arbitrary.  `hide` statements in proofs only withhold definitions from the
solver.

Where code and comments differ, the model follows the code: the receiver of
Exp-Golomb values subtracts one from the number it has read (the header comment
says it adds one), and the number of digits in a log file name is the index
divided by ten plus one, not its decimal length.

Properties that the code keeps only under a condition are proved with it:

* `DiskCache` is described as least-recently-used.  Every eviction does take an
  evictable entry of least modification time, but the scan also looks at locked
  and used entries, and starts its comparison with the entry after the first
  evictable one.  So a scan can end at a busy entry, run off the end of the map,
  or pick the entry that LockResource is about to mark.  Each of these is told
  from the entries before the call: every evictable entry has a turn, ties
  included, which evictions do not change; a turn is reached if the entries before
  it are not enough; and a check goes wrong at the first turn reached where the
  last key alone is evictable, a busy entry is in the way, or the files cannot be
  deleted.  It makes the cache fit exactly when no turn fails and the busy entries
  are within the limit, and a lock then loses its entry exactly when the turn of
  that entry is reached.
* The sizes of the cache's entries are those of their files as long as no stream has
  two writers at a time and no deletion leaves a file behind.  A writer opened on a
  file that is not counted, for one of these reasons, keeps the size right exactly
  if that file is empty or nothing is counted yet.
* A log write that fails adds the caller's byte count of an earlier call to the
  bytes of the current file.  The stream stays valid exactly when no failing write
  comes with a count other than zero.
* A frame reads back if and only if its packet is below 65536 bytes; the assertion
  in AppendToOutBuffer, not the size check in Send, is what keeps longer ones out.
* With white space allowed, padding required and the whole text to be used, white
  space at the end of an encoded text is accepted exactly when its last group is
  padded.

A call whose behaviour in the code is undefined, or which an assertion stops, has
no result in the model (`None`, or the verdict `Undefined`), and its contract says
exactly when that is.

## Model

| member | source | states |
|---|---|---|
| Framing.FrameReadsBack | webrtc/base/asynctcpsocket.cc:249-276 | a packet's frame parses back to the packet if and only if its length fits the 16-bit field, so the code's own buffer assertion is exactly what correctness needs |
| Framing.ParseFrames | webrtc/base/asynctcpsocket.cc:278-297 | parsing undoes framing for any list of packets, whatever bytes follow |
| Framing.FramesOfParsed | webrtc/base/asynctcpsocket.cc:278-297 | parsing any byte string loses nothing: the parsed packets' frames and the unparsed tail are the string, and the tail holds no complete frame |
| Framing.ParseInPieces | webrtc/base/asynctcpsocket.cc:196-207 | a stream handed over in pieces yields the same packets and tail as the whole |
| Framing.RoomAfterParsing | webrtc/base/asynctcpsocket.cc:209-213 | after parsing at least two bytes of the input buffer are free, so the overflow branch is dead |
| Framing.WhenEnabled | webrtc/base/asynctcpsocket.cc:168-172 | which packets reach the stream without tripping the assertion, and which answers of Recv fit the buffer, in numbers |
| Framing.SendStep | webrtc/base/asynctcpsocket.cc:249-276 | a packet below 65536 bytes offered to an empty buffer is accepted if the socket takes some of its frame: those bytes travel and the others wait; in every other case nothing changes |
| Framing.WriteStep | webrtc/base/asynctcpsocket.cc:217-227 | the bytes the socket takes move from the front of the buffer to the channel, and none if it takes none |
| Framing.ReadStep | webrtc/base/asynctcpsocket.cc:195-214 | received bytes leave the channel, and with the pending ones they are the frames of the newly signalled packets and an incomplete rest |
| Framing.StepConserves | webrtc/base/asynctcpsocket.cc:151-297 | every send, flush and read keeps the accounting: frames of accepted packets are those signalled, then the input buffer, the channel and the out buffer, in this order |
| Framing.RunConserves | webrtc/base/asynctcpsocket.cc:151-297 | the accounting holds in every state of every run |
| Framing.DeliveredInOrder | webrtc/base/asynctcpsocket.cc:151-297 | in every run the signalled packets are a prefix of the accepted ones, byte for byte, and equal them with no stray byte once nothing waits or is in flight |
| Framing.EverythingArrives | webrtc/base/asynctcpsocket.cc:151-297 | from every state of every run one full write and then reads alone bring every accepted packet to the receiver |
| Framing.AlwaysRoomToRead | webrtc/base/asynctcpsocket.cc:25-30 | in every state of every run Recv is offered at least two bytes |
| Framing.AsyncTcpSocket.FlushOutBuffer | webrtc/base/asynctcpsocket.cc:151-166 | exactly the bytes the socket took, all or a part, leave the front of the buffer and reach the wire; errors and impossible answers change nothing |
| Framing.AsyncTcpSocket.AppendToOutBuffer | webrtc/base/asynctcpsocket.cc:168-172 | the data follow the bytes already waiting, if the asserted room is there |
| Framing.AsyncTcpSocket.Send | webrtc/base/asynctcpsocket.cc:249-276 | result, wire and buffer for packets of every size and every answer: too long, dropped because bytes wait, stopped by the assertion, taken in part with the rest waiting, or dropped because none was taken |
| Framing.AsyncTcpSocket.OnWriteEvent | webrtc/base/asynctcpsocket.cc:217-227 | as FlushOutBuffer, and signals readiness exactly when nothing waits any more |
| Framing.AsyncTcpSocket.ProcessInput | webrtc/base/asynctcpsocket.cc:278-297 | signals exactly the complete packets and leaves exactly the unparsed tail at the front of the buffer |
| Framing.AsyncTcpSocket.OnReadEvent | webrtc/base/asynctcpsocket.cc:195-214 | received bytes are parsed after the pending ones, errors change nothing, the overflow branch is unreachable |
| FrameFormat.HeaderIsNetworkOrder | webrtc/base/asynctcpsocket.cc:260-261 | the length field is the 16-bit length in network order on hosts of either endianness |
| FrameFormat.FieldReadsBack | webrtc/base/asynctcpsocket.cc:285-285 | the field read by the receiver is the length modulo 2^16 |
| Crc32.UnstepStep | webrtc/base/crc32.cc:30-34 | the register step can be undone, so it loses no information |
| Crc32.FeedPacked | webrtc/base/crc32.cc:43-46 | feeding up to 32 bits one by one equals xoring them in at once and stepping that often |
| Crc32.BurstDetected | webrtc/base/crc32.cc:40-49 | two different messages of one length that differ only within 32 consecutive bits, at any bit position, have different checksums |
| Crc32.FourByteWindowDetected | webrtc/base/crc32.cc:40-49 | damage within four consecutive bytes always changes the checksum |
| Crc32.CrcConcat | webrtc/base/crc32.cc:40-49 | updating over two pieces equals updating once over their concatenation |
| Crc32.EightSteps | webrtc/base/crc32.cc:24-38 | eight steps on any word are one table entry for its low byte xored with the rest shifted down |
| Crc32.FeedByte | webrtc/base/crc32.cc:45-47 | one table lookup does what feeding the eight bits of a byte does |
| Crc32.ChecksumOfAbc | webrtc/base/crc32_unittest.cc:18-20 | the checksum of "abc" is the one the unit test expects |
| Crc32.Crc32Table.EnsureInited | webrtc/base/crc32.cc:24-38 | whatever was initialised before, every table slot holds eight steps of its index |
| Crc32.Crc32Table.UpdateCrc32 | webrtc/base/crc32.cc:40-49 | the table-driven update returns the bit-at-a-time checksum for every start value and byte string |
| LogNames.GetFilePath | webrtc/base/filerotatingstream.cc:326-345 | the padding loop produces the specified name |
| LogNames.NameParts | webrtc/base/filerotatingstream.cc:326-345 | the name is the stem, an underscore, zeros of the stated number and the decimal index |
| LogNames.KnownNames | webrtc/base/filerotatingstream.cc:326-345 | three names, with and without padding |
| LogNames.NamesSortLikeIndices | webrtc/base/filerotatingstream.cc:326-345 | for any number of files a smaller index has the smaller name, although the padding is not by decimal length |
| StringOrder.SortedListingUnique | webrtc/base/filerotatingstream.cc:68-76 | a set of names has one strictly sorted listing, so sorting a directory determines it |
| StringOrder.BeforeMeans | webrtc/base/filerotatingstream.cc:68-76 | the order of strings is by the first place where they differ |
| RotatingLog.NumRotatingLogFiles | webrtc/base/filerotatingstream.cc:392-398 | there are at least two rotating files |
| RotatingLog.RotatingLogSize | webrtc/base/filerotatingstream.cc:383-390 | rotating files are not empty, and all of them together fit in half of the limit |
| RotatingLog.SizesInNumbers | webrtc/base/filerotatingstream.cc:383-398 | from 6 MiB on the rotating files are of 1 MiB, as many as fit in half of the limit; below they are two of a quarter each |
| RotatingLog.RotatedLayout | webrtc/base/filerotatingstream.cc:278-304 | after a rotation the full file is the newest segment and only the oldest unprotected segment is gone, for both kinds of stream |
| RotatingLog.FileRotatingStream.Open | webrtc/base/filerotatingstream.cc:204-222 | matching files are gone, the session starts empty, files with other prefixes are untouched |
| RotatingLog.FileRotatingStream.ShiftFiles | webrtc/base/filerotatingstream.cc:284-300 | the file at the rotation index goes, those below move up by one, others stay |
| RotatingLog.FileRotatingStream.RotateFiles | webrtc/base/filerotatingstream.cc:278-304 | the current file becomes the newest segment, a fresh one replaces it, and layout and settings are those for the next file |
| RotatingLog.FileRotatingStream.OnRotation | webrtc/base/filerotatingstream.cc:370-381 | if size, rotation index and count were right for the rotations so far, they are right for one more: the file size of the next segment, and the index that protects the first file from the moment it would be lost |
| RotatingLog.FileRotatingStream.Write | webrtc/base/filerotatingstream.cc:143-171 | the accepted bytes, possibly none, are appended to what the session has written, a write before Open fails without effect, the current file is never full between writes; the stream stays valid if and only if no failing write comes with a left-over count |
| RotatingLog.FailedWriteMiscounts | webrtc/base/filerotatingstream.cc:158-163 | one failing write with a left-over count makes the stream count bytes its file does not hold |
| RotatingLog.PlainRetainsNewest | webrtc/base/filerotatingstream.cc:143-171 | with N files of M bytes, after any T bytes the files from oldest to newest are the last min(T, (N-1)*M + T mod M) bytes |
| RotatingLog.CallSessionRetainsBothEnds | webrtc/base/filerotatingstream.cc:354-398 | after any session the files hold the first max/2 bytes followed by the newest min(U, (R-1)*S + U mod S) of the U later ones |
| RotatingLog.RetainedInNumbers | webrtc/base/filerotatingstream.cc:354-398 | once as many bytes as the limit are written, more than the limit less 2 MiB and a byte are kept, or three quarters of a limit below 6 MiB |
| RotatingLog.KnownRetention | webrtc/base/filerotatingstream_unittest.cc:237-260 | the two contents that the unit tests expect |
| RotatingLog.CallSessionWithinLimit | webrtc/base/filerotatingstream.cc:354-398 | total disk use never exceeds the limit, not even while a full file waits for its rotation |
| LogReader.FileRotatingReader.Read | webrtc/base/filerotatingstream.cc:93-141 | each read returns the next bytes, as many as asked for or left in the current file, end of stream comes only when none are left, reads make progress; a file that cannot be opened is tried again, one that cannot be read is skipped and nothing else |
| LogReader.ListingOfSession | webrtc/base/filerotatingstream.cc:68-76 | the sorted listing of what a session leaves is its names in index order |
| LogReader.ReadBackCallSession | webrtc/base/filerotatingstream.cc:68-141 | the listed files of a call-session log, oldest first, are its first half and its newest bytes in the order they were written |
| LogReader.FileRotatingReader.ReadAll | webrtc/base/stream.cc:60-74 | reading on returns the remaining bytes up to the length asked for, all of them and end of stream when fewer are left; an error leaves a prefix |
| LogReader.ReadSession | webrtc/base/filerotatingstream_unittest.cc:56-72 | opening a finished log of either kind and reading it returns exactly what the session kept, then end of stream |
| Golomb.CountBitsLoop | webrtc/base/bitbuffer.cc:63-70 | the shifting loop computes the length of the binary representation |
| Golomb.CodeShape | webrtc/base/bitbuffer.cc:282-294 | a code word is n-1 zeros followed by the n bits of the value plus one, the first of them set |
| Golomb.DecodeCode | webrtc/base/bitbuffer.cc:158-188 | every value below 2^32-1 decodes from its code word, which is consumed exactly, whatever follows |
| Golomb.CodeOfDecoded | webrtc/base/bitbuffer.cc:158-188 | whatever is decoded is below 2^32-1 and the consumed bits are its code word |
| Golomb.DecodeFails | webrtc/base/bitbuffer.cc:158-188 | nothing is decoded if and only if no code word stands in front |
| Golomb.KnownCodes | webrtc/base/bitbuffer.cc:282-294 | the first three code words of H.264 |
| Golomb.SignedOrder | webrtc/base/bitbuffer.cc:190-201 | odd values are the positive numbers in order and even ones the negative |
| Golomb.SignedBijection | webrtc/base/bitbuffer.cc:190-201 | the signed mapping is a bijection onto [-(2^31-1), 2^31-1] and no step overflows |
| BitBuffer.LowestBitsSpec | webrtc/base/bitbuffer.cc:21-24 | the result has the low bits of the byte and zeros above |
| BitBuffer.HighestBitsSpec | webrtc/base/bitbuffer.cc:28-33 | the result has the high bits of the byte in the lowest positions |
| BitBuffer.WritePartialByteSpec | webrtc/base/bitbuffer.cc:43-60 | only the addressed bits of the target change, provided the unused source bits are clear or fall off the byte |
| BitBuffer.BitBufferWriter.ConsumeBits | webrtc/base/bitbuffer.cc:148-156 | moves the position by that many bits or, if there are too few, not at all |
| BitBuffer.BitBufferWriter.Seek | webrtc/base/bitbuffer.cc:211-219 | moves to any position up to the end and refuses others |
| BitBuffer.BitBufferWriter.PeekBits | webrtc/base/bitbuffer.cc:110-138 | returns the next bits as a big-endian number, exactly when enough remain and at most 32 are asked for; no bits at the end give zero, whatever byte lies behind the buffer |
| BitBuffer.BitBufferWriter.ReadBits | webrtc/base/bitbuffer.cc:140-142 | as PeekBits, and moves the position by what was read, or not at all on failure |
| BitBuffer.BitBufferWriter.WriteBits | webrtc/base/bitbuffer.cc:237-280 | the bits at the position become the low bits of the value and every other bit of the buffer is unchanged; too many bits fail without effect, and counts that lead to an undefined shift are told apart |
| BitBuffer.BitBufferWriter.WriteExponentialGolomb | webrtc/base/bitbuffer.cc:282-294 | writes exactly the code word, refusing the largest 32-bit value and words that do not fit |
| BitBuffer.BitBufferWriter.ReadExponentialGolomb | webrtc/base/bitbuffer.cc:158-188 | succeeds exactly when a code word stands at the position, returns its value and moves past it; a failed read leaves the position |
| BitBuffer.BitBufferWriter.ReadSignedExponentialGolomb | webrtc/base/bitbuffer.cc:190-201 | returns the signed value of the code word, with the sign by parity, within the symmetric 32-bit range |
| BitBuffer.BytesAsNumber | webrtc/base/bitbuffer.cc:84-108 | bits from one byte boundary to another are the number of the bytes, most significant first |
| Bits.FrontBit | webrtc/base/bitbuffer.cc:110-138 | of the bits of a number the first weighs most |
| BitBuffer.WriteSeekRead | webrtc/base/bitbuffer_unittest.cc:246-276 | writing any value in n bits at any position, seeking back and reading returns the value modulo 2^n, ends at the position after the write and leaves the other bits alone |
| BitBuffer.WriteSeekReadCodes | webrtc/base/bitbuffer_unittest.cc:300-314 | any sequence of values below 2^32-1 written one by one reads back as the same sequence, each read ending where the write of its word ended; it fails exactly for the largest value or lack of room |
| Base64.TablesInverse | webrtc/base/base64.cc:32-69 | the two tables are inverse to each other |
| Base64.TheAlphabet | webrtc/base/base64.cc:27-69 | the characters of the alphabet in order, the pad and the white space |
| Base64.QuantumBytes | webrtc/base/base64.cc:228-240 | one to four characters carry exactly the bytes that the shifts and masks assemble |
| Base64.CarriedLength | webrtc/base/base64.cc:225-250 | k characters carry floor(6k/8) bytes |
| Base64.EncodeFromArray | webrtc/base/base64.cc:98-136 | the encoding loop produces the text of the bytes |
| Base64.KnownEncoding | webrtc/base/base64.cc:98-136 | a test vector of section 10 of RFC 4648 |
| Base64.EncodeIsCanonical | webrtc/base/base64.cc:98-136 | every encoded text is canonical and carries exactly the encoded bytes |
| Base64.CanonicalIffEncoding | webrtc/base/base64.cc:98-258 | a text is canonical if and only if it is the encoding of some bytes |
| Base64Decoder.ScanGroup | webrtc/base/base64.cc:142-176 | in every mode the scan collects exactly the alphabet characters it passes, tracks where the plain characters end and which pads follow, and stops only at a character that can neither continue the group nor be ignored |
| Base64Decoder.GetNextQuantum | webrtc/base/base64.cc:138-190 | after giving back incomplete padding the buffer holds exactly the alphabet characters of the consumed part, zero-filled; a last group ends where the reference says and is padded exactly when enough pads follow |
| Base64Decoder.DecodeFromArray | webrtc/base/base64.cc:204-258 | for all 27 modes and every text, success and the used part are those of the reference (where the characters end, the pads behind them, unused bits), and the result is what the alphabet characters of the used part carry |
| Base64Verdicts.VerdictOnWholeText | webrtc/base/base64.cc:204-258 | with padding required and the whole text to be used, strict or ignoring white space, a text is accepted if and only if it is canonical without what is ignored and nothing is ignored after a final full group |
| Base64Verdicts.StrictVerdict | webrtc/base/base64.cc:204-258 | in the strictest mode success is canonicity |
| Base64Verdicts.EncodedDecodes | webrtc/base/base64.cc:98-258 | encoded texts decode to the encoded bytes, all of the text used, in every mode that allows pads |
| Base64Verdicts.TolerantUsesAll | webrtc/base/base64.cc:138-258 | when any character is tolerated, every alphabet character of the text counts |
| Base64Verdicts.NewlineAfterEncoded | webrtc/base/base64.cc:241-251 | a newline after an encoded text is accepted if and only if the last group is padded |
| Base64Verdicts.WhatIsIgnored | webrtc/base/base64.cc:143-151 | which characters each parse mode skips |
| Base64Verdicts.UsedIsLongest | webrtc/base/base64.cc:204-258 | unless everything is tolerated, the used part is the longest prefix that, without what is ignored, is of the alphabet and completely padded or not at all |
| Base64Verdicts.VerdictOnUsed | webrtc/base/base64.cc:241-256 | for every pad and termination mode of the strict and white-space parses: success if and only if no bits are over, nothing is unused and groups are complete, as far as each is asked for |
| Base64Verdicts.VerdictWithoutPads | webrtc/base/sslidentity.cc:106-111 | with padding optional or forbidden and the whole text to be used, success if and only if the text without what is ignored is well formed and leaves no bits over |
| Base64Verdicts.TolerantVerdict | webrtc/base/base64.cc:204-258 | when everything is tolerated: what is given back, and success for every pad and termination mode, from the characters, their bits and the pads behind them |
| Base64Verdicts.LaxVerdict | webrtc/libjingle/xmpp/saslmechanism.cc:42-46 | the lax mode succeeds if and only if the bits of the characters beyond the last whole byte are zero |
| DiskEntries.UpdateEntry | webrtc/base/diskcache.cc:131-136 | the sums over the entries change by the difference of the one entry that changes |
| DiskEntries.EraseKeeps | webrtc/base/diskcache.cc:208-210 | erasing an unused entry keeps sums and open streams consistent |
| DiskEntries.OpenKeeps | webrtc/base/diskcache.cc:131-137 | opening a stream of the right kind keeps them consistent |
| DiskEntries.CloseKeeps | webrtc/base/diskcache.cc:323-343 | closing one does, even when it completes an unlocking |
| DiskFiles.TotalIsOnDisk | webrtc/base/diskcache.cc:213-222 | if every entry has the size of its files and none is left behind, the sizes add up to the bytes on disk |
| DiskFiles.OpeningCounts | webrtc/base/diskcache.cc:117-134 | opening a writer keeps an entry's size right if its file was counted, and otherwise if and only if the file is empty or nothing is counted |
| DiskFiles.TidyOpen | webrtc/base/diskcache.cc:112-138 | a writer on a stream that has none keeps files and sizes in order |
| DiskFiles.TidyClose | webrtc/base/diskcache.cc:315-344 | closing a stream does, a writer's file counting again with its new size |
| DiskFiles.TidyErase | webrtc/base/diskcache.cc:194-210 | deleting an entry with its files does |
| DiskFiles.SecondWriterMiscounts | webrtc/base/diskcache.cc:117-134 | a second writer on the same stream takes the bytes written so far off another file |
| DiskCache.Cache.TotalIsBytesOnDisk | webrtc/base/diskcache.cc:213-222 | in order, the total is the number of bytes in the files that no writer has open |
| DiskCache.Cache.LockResource | webrtc/base/diskcache.cc:98-110 | locks exactly lockable resources once the cache fits, with the exact entries that remain in every case; there is no result if and only if the resource is lockable and its entry, or the check, is lost by the condition on the entries before the call |
| DiskCache.Cache.WriteResource | webrtc/base/diskcache.cc:112-138 | a writer is opened exactly on a locked entry whose file opens, and the bytes to be overwritten no longer count; files and sizes stay in order if the stream has no other writer |
| DiskCache.Cache.UnlockResource | webrtc/base/diskcache.cc:140-153 | an entry with open writers waits, one without is unlocked, stamped and subject to eviction at once |
| DiskCache.Cache.ReadResource | webrtc/base/diskcache.cc:155-170 | a reader is opened exactly on an existing stream of an unlocked entry whose file opens |
| DiskCache.Cache.ReleaseResource | webrtc/base/diskcache.cc:315-344 | a closed writer's file counts again, in the entry and in the total, the last writer of an unlocking entry unlocks and stamps it, and files and sizes stay in order |
| DiskCache.Cache.DeleteResource | webrtc/base/diskcache.cc:187-211 | locked or used entries stay, others go with their size even when a file cannot be deleted; files and sizes stay in order if all go |
| DiskCache.Cache.FindOldest | webrtc/base/diskcache.cc:226-241 | the two loops over the map in key order compute the specified scan |
| DiskCache.Cache.CheckLimit | webrtc/base/diskcache.cc:213-248 | terminates with the entries and the verdict of the specified evictions, keeping the accounting exact; success only within the limit, and undefined exactly by the condition on the entries before |
| Eviction.ScanFails | webrtc/base/diskcache.cc:226-237 | the scan finds nothing if and only if no entry is evictable, and runs off the end of the map if and only if the only evictable entry is the last |
| Eviction.ScanFinds | webrtc/base/diskcache.cc:237-241 | otherwise it picks the one entry it prefers to all it passes, ties included, and no evictable entry was modified earlier |
| Eviction.ScanFindsBusy | webrtc/base/diskcache.cc:237-245 | it ends at a locked or used entry if and only if one behind the first evictable entry is preferred to every evictable one |
| Eviction.EvictsOldestFirst | webrtc/base/diskcache.cc:213-248 | over all evictions of one check only evictable entries go, and none that remains was modified before one that went |
| EvictionTurns.NoneSooner | webrtc/base/diskcache.cc:226-241 | no entry's turn, defined on the entries alone, comes before that of the one the scan picks |
| EvictionTurns.PickedIsSooner | webrtc/base/diskcache.cc:226-241 | the one it picks precedes every other evictable entry |
| EvictionTurns.SoonerWithout | webrtc/base/diskcache.cc:226-246 | evicting the picked entry leaves the turns of all others as they were |
| EvictionTurns.VerdictForetold | webrtc/base/diskcache.cc:213-248 | a check ends in the way of the first turn that fails; if none fails, it ends well or with busy entries only, as their size decides: all five ends told from the entries before the call |
| EvictionTurns.FitsIff | webrtc/base/diskcache.cc:213-248 | a check makes the cache fit if and only if the busy entries are within the limit and no turn fails |
| EvictionTurns.UndefinedIff | webrtc/base/diskcache.cc:226-241 | a check runs off the end of the map if and only if some turn is reached, with none failing before, at which the last key alone is evictable |
| EvictionTurns.EvictedIff | webrtc/base/diskcache.cc:213-248 | however the check ends, an evictable entry is gone if and only if its turn is reached, no turn before it fails and the scan comes to it |
| EvictionTurns.LockLostIff | webrtc/base/diskcache.cc:98-110 | the check of a lock runs off the map, or succeeds without the entry being locked, if and only if a condition on the entries before the call holds |
| EvictionTurns.OnlyEntryTooBig | webrtc/base/diskcache.cc:226-241 | a cache of one free resource above the limit makes the scan run off the map |
| EvictionTurns.LockedEntryInTheWay | webrtc/base/diskcache.cc:237-245 | an old locked resource keeps a free one from being evicted |
| EvictionTurns.VictimIsTheLockedOne | webrtc/base/diskcache.cc:98-110 | locking the oldest resource of an overfull cache evicts that very entry |
| EvictionTurns.SecondScanRunsOff | webrtc/base/diskcache.cc:226-241 | of two free resources above the limit the first goes and the scan for the second runs off the map |
| EvictionTurns.TieTakesSecond | webrtc/base/diskcache.cc:237-241 | of two resources of the same time the second is picked |
| ByteOrder.IntegerRoundTrip | webrtc/base/byteorder.h:38-162 | values of 8, 16, 24, 32 and 64 bits read back as written in both orders on hosts of either endianness |
| ByteOrder.BytesRoundTrip | webrtc/base/byteorder.h:38-162 | every byte string of these widths is the written form of the value read from it, which fits the width |
| ByteOrder.DigitsInOrder | webrtc/base/byteorder.h:38-107 | every byte is the base-256 digit of its place, counted from the end in network order and from the front in little-endian order |
| ByteOrder.HostOrderIsMemory | webrtc/base/bytebuffer.cc:150-176 | in host order the bytes are those of the host's memory |
| ByteOrder.NetworkOrderIsPortable | webrtc/base/byteorder.h:134-150 | in network order the bytes do not depend on the host |
| ByteBuffer.Reserved | webrtc/base/bytebuffer.cc:186-211 | making room never changes the unread bytes, and moves them only under a new version |
| ByteBuffer.RunIsFifo | webrtc/base/bytebuffer.cc:140-218 | over any run of writes, reads, failed reads, compactions and growth, the bytes taken followed by those unread are the bytes unread at the start followed by those written |
| ByteBuffer.StoredGrows | webrtc/base/bytebuffer.cc:182-236 | over any run versions never go back, and within one version the stored bytes only grow by what is written |
| ByteBuffer.PositionRestores | webrtc/base/bytebuffer.cc:220-230 | a position still accepted after any run restores the bytes unread when it was taken, followed by those written since |
| ByteBuffer.MovedRefusesPosition | webrtc/base/bytebuffer.cc:195-236 | after a resize or a clear in a run no earlier position is accepted |
| ByteBuffer.Buffer.ResizeTo | webrtc/base/bytebuffer.cc:195-211 | keeps the first of the unread bytes up to the new size, under a new version, and grows by at least half when it grows |
| ByteBuffer.Buffer.WriteBytes | webrtc/base/bytebuffer.cc:182-193 | appends the bytes to the unread ones, moving them only if there is no room behind |
| ByteBuffer.Buffer.ReadBytes | webrtc/base/bytebuffer.cc:140-148 | returns the next bytes and moves past them, or fails without effect |
| ByteBuffer.Buffer.ConsumeBytes | webrtc/base/bytebuffer.cc:213-218 | skips the next bytes, or fails without effect |
| ByteBuffer.Buffer.GetReadPosition | webrtc/base/bytebuffer.cc:220-222 | the position and the version it belongs to |
| ByteBuffer.Buffer.WriteUInt | webrtc/base/bytebuffer.cc:150-176 | appends the bytes of the integer in the buffer's order |
| ByteBuffer.Buffer.ReadUInt | webrtc/base/bytebuffer.cc:69-126 | returns the only value of the width whose written form is the bytes in front |
| ByteBuffer.Buffer.SetReadPosition | webrtc/base/bytebuffer.cc:224-230 | accepts exactly positions of the current version and moves there |
| ByteBuffer.Buffer.ClearAll | webrtc/base/bytebuffer.cc:232-236 | empties the buffer under a new version |
| BufferQueue.Buffer.EnsureCapacity | webrtc/base/buffer.h:161-170 | grows without changing the contents |
| BufferQueue.Buffer.AppendData | webrtc/base/buffer.h:134-143 | the contents are extended by the data |
| BufferQueue.Buffer.SetData | webrtc/base/buffer.h:121-126 | the contents are replaced by the data |
| BufferQueue.PacketQueue.ReadFront | webrtc/base/bufferqueue.cc:35-55 | takes the oldest packet, truncates only the returned copy, and recycles its buffer |
| BufferQueue.PacketQueue.WriteBack | webrtc/base/bufferqueue.cc:57-78 | refuses exactly when full, otherwise appends the packet without altering queued ones; at most capacity buffers are ever made |
| Decimals.NumberReadsBack | webrtc/base/httpcommon-inl.h:93-96 | the digits of a printed number are read back up to the next non-digit |
| Decimals.PrintedNumber | webrtc/base/httpcommon-inl.h:55-55 | strtoul reads a printed number back, clamped to the largest value |
| Decimals.SpaceSkipped | webrtc/base/httpcommon-inl.h:55-55 | white space before the number is skipped |
| Decimals.SignedNumber | webrtc/base/httpcommon-inl.h:55-55 | a plus sign changes nothing, a minus sign negates modulo 2^64 |
| Url.FindMeans | webrtc/base/stringutils.h:159-166 | the search finds the first occurrence before a terminating zero |
| Url.ParsedParts | webrtc/base/httpcommon-inl.h:24-78 | scheme in either case, optional user, host, optional port, path and query of a text come out as they stand, with the defaults for what is missing |
| Url.OtherSchemes | webrtc/base/httpcommon-inl.h:31-34 | texts of any other scheme clear the value |
| Url.PrintedParts | webrtc/base/httpcommon-inl.h:81-104 | the printed text in its parts, the default port left out |
| Url.PrintThenParse | webrtc/base/httpcommon-inl.h:24-104 | printing and parsing returns the value, with and without a default port |
| Url.RoundTripIffDescribable | webrtc/base/httpcommon-inl.h:24-104 | the round trip succeeds if and only if the value is one a URL can describe |
| Url.HttpUrl.SetUrl | webrtc/base/httpcommon-inl.h:24-42 | the fields become the parsed value; other schemes clear them |
| Url.HttpUrl.SetAddress | webrtc/base/httpcommon-inl.h:45-61 | host and port of an address, skipping a user name; the port as strtoul reads it, truncated to 16 bits |
| Url.HttpUrl.SetFullPath | webrtc/base/httpcommon-inl.h:64-78 | path and query, an empty path becoming the root |
| Url.HttpUrl.GetUrl | webrtc/base/httpcommon-inl.h:81-104 | the text printed for the fields |
| Smoother.StepBounds | webrtc/base/bandwidthsmoother.cc:36-84 | a sample leaves the estimate in range, at most the mean if it counts, and an increase from a positive estimate is within the percentage |
| Smoother.Uncounted | webrtc/base/bandwidthsmoother.cc:37-47 | negative samples change nothing, and too few only the window |
| Smoother.DropFollowed | webrtc/base/bandwidthsmoother.cc:52-56 | a drop lands on the mean at once |
| Smoother.RiseIf | webrtc/base/bandwidthsmoother.cc:58-80 | an increase comes if and only if the threshold is in range and reached and the waiting time is over, and to which value |
| Smoother.WindowIsNewest | webrtc/base/bandwidthsmoother.cc:41-50 | in every history the window holds the newest samples, as many as are averaged |
| Smoother.MeanOfSum | webrtc/base/bandwidthsmoother.cc:49-50 | the mean is the truncated quotient of sum and count |
| Smoother.SumConcat | webrtc/base/bandwidthsmoother.cc:41-50 | the sum of samples is that of their parts |
| Smoother.IncreaseAfterQuiet | webrtc/base/bandwidthsmoother.cc:65-80 | in every history an increase lies at least the waiting time after every earlier change and every counted mean below the threshold, even one beyond the range of the estimate |
| Smoother.HistoryBounds | webrtc/base/bandwidthsmoother.cc:36-84 | in every history the estimate stays in [0, INT_MAX] and at most the latest counted mean |
| Smoother.BandwidthSmoother.TakeSample | webrtc/base/bandwidthsmoother.cc:36-84 | the fields follow the specified step and the result tells whether the estimate changed |

## Left out

- Sockets, addresses, listening, connecting, signals and logging: the socket is the sequence of its answers, signals are a ghost log.
- SendRaw and SendTo: not on the framed path.
- 32-bit and 64-bit overflow of sizes, counters, versions and times: unbounded numbers, except where the code truncates or shifts machine words.
- `Bits.Shl` and `Bits.And` and their companions are defined through the bits of a number, not as machine instructions.
- A zero-bit peek or read at the end of the bit buffer loads the byte behind the buffer: the model takes any byte for it. A zero-bit write, and one of more than 64 bits that fits the buffer, shift a 64-bit word by 64 or more: `BitBuffer.BitBufferWriter.WriteBits` has no result there and does not follow the code further.
- ReadUInt8, ReadUInt16, ReadUInt32, WriteUInt8 and their like on the bit buffer: one-line calls of ReadBits and WriteBits.
- GetNextBase64Char and IsBase64Encoded: easy; the 256-entry decode table is a function of character ranges.
- RotatingLog.FileRotatingStream.Write: the debug check that a full file holds exactly its size is not modelled; files can be deleted, moved and opened.
- Closing and reopening a log stream, buffering, GetSize and path handling beyond a common prefix.
- DiskCache.Cache.LockResource: what happens after the scan has run off the map, or after the evicted entry is written to, is not modelled.
- DiskCache Purge, Initialize, HasResource and the mapping of ids to file names.
- ByteBuffer ReadString and the constructors from strings; Buffer moves, swaps and SetSize.
- Url get_attribute; unsigned long is taken to have 64 bits.
- Smoother.BandwidthSmoother.TakeSample: rounding of floating-point numbers and wrap-around of 32-bit times; the rolling accumulator is the window of its samples.
- AsyncInvoker, callbacks, D-Bus, event tracing, critical sections, flags and the other helpers of the directory: plumbing or easy arithmetic.

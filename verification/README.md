# Verified models of the base components

Dafny models of self-contained parts of this repository, with proofs of what they promise. Most
come from `anyrtc/jni/webrtc/base`; three come from the application's own media code. Run
`dafny verify dfyconfig.toml` in this directory.

| module | models |
|---|---|
| `CriticalSection` | the spin-then-semaphore recursive lock, as atomic steps of any number of threads |
| `Framing`, `AsyncTcpSocket`, `Buffers` | packets over a byte stream: the two ends and the network as one transition system, the socket class with its two buffers, and the buffer under them |
| `BitSequences`, `ExpGolomb`, `BitBuffer` | machine words and their bits, Exp-Golomb codes (sections 9.1 and 9.1.1 of ITU-T H.264), and the bit-level reader and writer |
| `LogLayout`, `LogNames`, `FileRotatingStream` | what a call-session log keeps of the stream written to it, the names of its files, and the classes that write and read it |
| `Base64` | encoder and flag-driven decoder (section 4 of RFC 4648) |
| `Crc32` | the table-driven checksum against bit-at-a-time division (section 8 of RFC 1952) |
| `NalUnits` | the start-code search and the fragment table of the hardware encoder (Annex B of ITU-T H.264) |
| `Eviction`, `DiskCache` | which entries of the cache eviction erases, and exactly when it succeeds; the class with its locks, open adapters and size accounting |
| `CopyOnWriteBuffer` | handles that share reference-counted storage |
| `ByteOrder`, `ByteBuffer` | byte orders, varints, and the writer and reader over a growing buffer |
| `VideoBitrate`, `PlyBuffer` | the bitrate under a changing network delay, and the play/cache states of the player |
| `Sequences`, `Strings`, `Options` | helpers |

Each class has the fields of its source, and its methods are proved against functions or predicates
on values (`Parse`, `Decode`, `Encode`, `Crc`, `Layout`, ...). The main results are lemmas about
those, over all inputs or all runs.

The environment (the stream socket, the file system, the clock) is
nondeterministic: a method parameter, a value chosen freely, or a class such as `StreamSocket`
that records what it was asked. `size_t` and `int` are unbounded except where a width matters:
16-bit packet lengths, 32- and 64-bit words in `BitBuffer`, `Crc32`, `ByteBuffer` and `PlyBuffer`.

## What the code does that its documentation does not say

- A packet of 65536 to 65538 bytes passes the length check of `AsyncTCPSocket::Send`, but its
  16-bit length is truncated; `Framing.FramesRoundTrip` gives the exact condition.
- `CopyOnWriteBuffer::Clear` is documented to reset size and capacity; it keeps the capacity exactly
  of an object that is not shared: `CopyOnWriteBuffer.Clear`. `CopyOnWriteBuffer.AppendData` shows
  when consistency is lost: appending nothing to an empty handle.
- `DiskCache::Purge` leaves `total_size_` behind: `DiskCache.Purge`. `LockResource` may lose the
  entry that it is about to lock: `Eviction.LosesExactly` says in which states. The victim search
  may settle on an entry in use: `Eviction.VictimIsIdle` says when. It runs past the end of the map
  when the first idle entry is the last of all: `DiskCache.FindVictim`.
- Characters that a base64 decoder passes over make no difference, except where padding is required
  and they follow whole quanta, such as a line end after an encoding without pads:
  `Base64.DecodeCleanPadded`.
- After a failed write a rotating log counts bytes that it has not written, unless the count that
  the caller passes happens to be zero: `FileRotatingStream.Write`.
- A call-session log that is opened again after it has rotated keeps its beginning only as long as
  it keeps everything: `FileRotatingStream.ReopenedLogKeepsTheEnd`.
- The NAL scanner does not see a start code at the very end of the payload: `NalUnits.SplitJoin`.
- `BitBufferWriter` refuses 2^32 - 1 because its code would have 33 value bits:
  `ExpGolomb.LargestValueIsLost`.

## Model

| member | source | states |
|---|---|---|
| CriticalSection.MutualExclusion | anyrtc/jni/webrtc/base/criticalsection.cc:57-92 | in every run of any number of threads, two threads that are between taking the lock and the decrement that gives it up are the same thread |
| CriticalSection.ChecksHold | anyrtc/jni/webrtc/base/criticalsection.cc:84-88 | none of the debug checks of Enter, TryEnter and Leave ever fails, in any interleaving |
| CriticalSection.OwnerAndDepth | anyrtc/jni/webrtc/base/criticalsection.cc:152-159 | outside its calls a thread is the recorded owner exactly if it has entered more often than left, and then `recursion_` is its nesting depth |
| CriticalSection.QueueAccounting | anyrtc/jni/webrtc/base/criticalsection.cc:81-92 | `lock_queue_` is the holder's entries plus the number of committed waiters, or just the waiters when nobody holds the lock |
| CriticalSection.OneGrant | anyrtc/jni/webrtc/base/criticalsection.cc:152-159 | holder, pending signal and semaphore token exclude each other, there is never more than one, and one of them exists exactly while the queue is not empty |
| CriticalSection.NoDeadlock | anyrtc/jni/webrtc/base/criticalsection.cc:89-92 | while a thread waits, a thread that holds the lock, is about to signal, or is the waiter with the token can take a step, or it is a holder between its Enter and its Leave |
| CriticalSection.WaiterCanProceed | anyrtc/jni/webrtc/base/criticalsection.cc:57-92 | no wake-up is lost: every run in which a thread waits has a continuation in which that thread holds the lock |
| CriticalSection.PathToLock | anyrtc/jni/webrtc/base/criticalsection.cc:57-92 | the same from any state of the invariant |
| CriticalSection.MoverMoves | anyrtc/jni/webrtc/base/criticalsection.cc:57-92 | the step to take is one of the holder, of the thread that signals, or of the waiter; it keeps the invariant and comes closer in a well-founded order, or gives the waiter the lock |
| CriticalSection.EnterCanProceed | anyrtc/jni/webrtc/base/criticalsection.cc:57-92 | Enter does take the lock: every run in which a thread has started Enter, or is anywhere in it, has a continuation in which the call has ended and the thread is the owner, one level deeper |
| CriticalSection.PathThroughEnter | anyrtc/jni/webrtc/base/criticalsection.cc:57-92 | the same from any state of the invariant |
| CriticalSection.CallsEnd | anyrtc/jni/webrtc/base/criticalsection.cc:57-159 | however the threads interleave, during one call a thread takes at most 12012 steps of its own in Enter, 6 in TryEnter and 9 in Leave; only the semaphore can hold it up |
| CriticalSection.CallsAlone | anyrtc/jni/webrtc/base/criticalsection.cc:57-159 | in any state of any run, a thread whose calls are not interfered with: Enter and TryEnter on a lock that is free or its own end with it as owner, one level deeper; on one of another thread TryEnter changes nothing and Enter counts itself in the queue and waits, or takes the token of a wake-up under way; Leave goes back one level, and from the last one frees the lock and wakes a thread exactly if one is counted |
| CriticalSection.RefinesRecursiveLock | anyrtc/jni/webrtc/base/criticalsection.cc:57-159 | every step of every run is a step of an abstract recursive lock (acquire, re-enter, leave, release) or changes nothing in it |
| CriticalSection.TryEnterFailure | anyrtc/jni/webrtc/base/criticalsection.cc:114-123 | TryEnter fails without any effect, and only while another thread has the lock or is waiting for it |
| CriticalSection.RunInv | anyrtc/jni/webrtc/base/criticalsection.cc:57-159 | the invariant behind these results holds in every state of every run |
| CriticalSection.ExecInv | anyrtc/jni/webrtc/base/criticalsection.cc:57-159 | one atomic step of one thread keeps the invariant and moves the grant as `NextGrant` says |
| Framing.DeliveredIsPrefix | anyrtc/jni/webrtc/base/asynctcpsocket.cc:157-326 | at every moment of every run, whatever the partial sends, failures and receive chunks: the packets delivered are a prefix of the packets announced as sent, and all of them once nothing is waiting or under way (packets of at most 65535 bytes) |
| Framing.Delivered | anyrtc/jni/webrtc/base/asynctcpsocket.cc:157-326 | the same from the state alone, for any two ends with their invariants |
| AsyncTcpSocket.DeliversWhatWasSent | anyrtc/jni/webrtc/base/asynctcpsocket.cc:157-326 | the same for two socket objects: if what arrived at the one is a prefix of what was taken from the other, its packets delivered are a prefix of the packets sent there, and all of them once nothing is waiting or under way; the methods of both keep what this needs |
| Framing.RunSound | anyrtc/jni/webrtc/base/asynctcpsocket.cc:157-326 | in every run the bytes taken by the socket plus `outbuf_` are the frames of exactly the packets announced as sent, and the receiver has delivered exactly the complete frames received |
| Framing.StepSound | anyrtc/jni/webrtc/base/asynctcpsocket.cc:157-326 | each step of either end keeps that invariant |
| Framing.FramesRoundTrip | anyrtc/jni/webrtc/base/asynctcpsocket.cc:278-326 | parsing the frames of a list of packets gives the list back if and only if every packet has at most 65535 bytes; the sender itself accepts up to 65538 |
| Framing.OversizedPacket | anyrtc/jni/webrtc/base/asynctcpsocket.cc:280-289 | a packet of 65536 bytes arrives with an empty packet in front, because its length is truncated |
| Framing.FrameBytes | anyrtc/jni/webrtc/base/asynctcpsocket.cc:289-291 | a frame is the length in two bytes, most significant first, and the packet |
| Framing.ParseInChunks | anyrtc/jni/webrtc/base/asynctcpsocket.cc:307-326 | parsing in two chunks, keeping what is left over, gives what parsing the whole gives |
| Framing.Conservation | anyrtc/jni/webrtc/base/asynctcpsocket.cc:307-326 | the frames of the packets delivered followed by what is left are the input, byte for byte |
| Framing.LeftOver | anyrtc/jni/webrtc/base/asynctcpsocket.cc:307-326 | what ProcessInput leaves holds no complete frame and is at most 65536 bytes, so a full buffer always holds one |
| Framing.Sender.SendsSound | anyrtc/jni/webrtc/base/asynctcpsocket.cc:278-305 | a call of Send, with every outcome, keeps wire and output buffer equal to the frames of the packets sent |
| Framing.Sender.SendsResult | anyrtc/jni/webrtc/base/asynctcpsocket.cc:278-305 | the result of Send and the packets taken as sent: -1 for more than 65538 bytes; the length of the packet, which is dropped, while bytes wait; the length of the packet, which is then sent, if the socket takes some of it; otherwise what the socket returned |
| Framing.Receiver.ReceivedSound | anyrtc/jni/webrtc/base/asynctcpsocket.cc:203-243 | receiving a chunk delivers exactly the frames that it completes |
| AsyncTcpSocket.AsyncTcpSocket.Send | anyrtc/jni/webrtc/base/asynctcpsocket.cc:278-305 | the result and the new state for each case (too long, bytes waiting, socket took nothing, socket took a part), what the caller is told and which packets count as sent, that the socket is offered the whole frame once, or not at all, that the sender stays sound and the receiving end as it was, and that the debug check on the output buffer fails exactly for packets of 65537 and 65538 bytes that are not dropped |
| AsyncTcpSocket.AsyncTcpSocket.AppendToOutBuffer | anyrtc/jni/webrtc/base/asynctcpsocket.cc:175-179 | appends, also where the debug check on the size fails, and tells whether it holds |
| AsyncTcpSocket.AsyncTcpSocket.FlushOutBuffer | anyrtc/jni/webrtc/base/asynctcpsocket.cc:157-173 | offers the whole output buffer and removes from its front exactly what the socket took |
| AsyncTcpSocket.AsyncTcpSocket.OnWriteEvent | anyrtc/jni/webrtc/base/asynctcpsocket.cc:246-256 | sends what is waiting, once, signals readiness exactly if nothing is left, and keeps the sender sound |
| AsyncTcpSocket.AsyncTcpSocket.ProcessInput | anyrtc/jni/webrtc/base/asynctcpsocket.cc:307-326 | the loop over the array delivers the packets of `Parse` and leaves its rest at the front |
| AsyncTcpSocket.AsyncTcpSocket.MakeRoom | anyrtc/jni/webrtc/base/asynctcpsocket.cc:205-210 | the buffer keeps its bytes, doubles up to 65538 when fewer than 128 are free, and has no room only when it is full |
| AsyncTcpSocket.AsyncTcpSocket.ReceiveOnce | anyrtc/jni/webrtc/base/asynctcpsocket.cc:204-224 | one round: the window is the free part of the buffer, and what the socket puts there is appended |
| AsyncTcpSocket.AsyncTcpSocket.ReceiveAll | anyrtc/jni/webrtc/base/asynctcpsocket.cc:203-227 | appends everything received, and stops exactly when the socket fails or leaves part of a window unused; the first window is not empty |
| AsyncTcpSocket.AsyncTcpSocket.OnReadEvent | anyrtc/jni/webrtc/base/asynctcpsocket.cc:203-243 | the receiver moves by exactly the bytes received and is left with at most 65536 bytes |
| AsyncTcpSocket.StreamSocket.Send | anyrtc/jni/webrtc/base/asynctcpsocket.cc:159-166 | the stream socket below may take any part of what it is offered, or fail |
| Buffers.Buffer.EnsureCapacityWithHeadroom | anyrtc/jni/webrtc/base/buffer.h:304-323 | elements are kept, nothing happens if the capacity suffices, and otherwise the new capacity is the one asked for or 1.5 times the old one |
| Buffers.Buffer.AppendData | anyrtc/jni/webrtc/base/buffer.h:219-227 | appends, whether or not it reallocates |
| Buffers.Buffer.SetData | anyrtc/jni/webrtc/base/buffer.h:181-185 | replaces the contents |
| Buffers.Buffer.SetSize | anyrtc/jni/webrtc/base/buffer.h:274-277 | truncates, or keeps all elements and adds uninitialised ones |
| BitBuffer.WritePartialBits | anyrtc/jni/webrtc/base/bitbuffer.cc:43-60 | the mask arithmetic puts the first bits of the source at the offset and keeps all other bits of the target |
| BitBuffer.LowestBitsAre | anyrtc/jni/webrtc/base/bitbuffer.cc:21-24 | the mask keeps exactly the lowest bits |
| BitBuffer.HighestBitsAre | anyrtc/jni/webrtc/base/bitbuffer.cc:28-33 | mask and shift give exactly the highest bits |
| BitBuffer.CountBits | anyrtc/jni/webrtc/base/bitbuffer.cc:63-70 | counts the bits of the binary representation |
| BitBuffer.BitBuffer.RemainingBitCount | anyrtc/jni/webrtc/base/bitbuffer.cc:82-84 | what is left after the bit offset |
| BitBuffer.BitBuffer.PeekBits | anyrtc/jni/webrtc/base/bitbuffer.cc:110-138 | succeeds exactly for at most 32 bits that are there, and returns the number that they denote, most significant bit first, at any offset |
| BitBuffer.BitBuffer.ReadBits | anyrtc/jni/webrtc/base/bitbuffer.cc:140-142 | the same, and moves past the bits; nothing moves on failure |
| BitBuffer.BitBuffer.ConsumeBits | anyrtc/jni/webrtc/base/bitbuffer.cc:148-156 | moves by exactly the count, or not at all |
| BitBuffer.BitBuffer.Seek | anyrtc/jni/webrtc/base/bitbuffer.cc:211-219 | succeeds exactly for positions within the buffer |
| BitBuffer.BitBuffer.WriteBits | anyrtc/jni/webrtc/base/bitbuffer.cc:237-280 | replaces exactly the n bits at the offset by the n low bits of the value, leaves every other bit of the buffer as it was, and moves by n; or changes nothing |
| BitBuffer.BitBuffer.ReadExponentialGolomb | anyrtc/jni/webrtc/base/bitbuffer.cc:158-188 | returns what `Decode` says of the bits there; on failure the offset is restored, and restoring it never fails |
| BitBuffer.BitBuffer.ReadSignedExponentialGolomb | anyrtc/jni/webrtc/base/bitbuffer.cc:190-201 | returns the signed value whose code number was read |
| BitBuffer.BitBuffer.WriteExponentialGolomb | anyrtc/jni/webrtc/base/bitbuffer.cc:282-294 | writes exactly the code of the value; refuses 2^32 - 1 and codes that do not fit, changing nothing |
| BitBuffer.BitBuffer.WriteSignedExponentialGolomb | anyrtc/jni/webrtc/base/bitbuffer.cc:296-308 | writes the code of the mapped value; refuses only INT_MIN and codes that do not fit |
| ExpGolomb.RoundTrip | anyrtc/jni/webrtc/base/bitbuffer.cc:158-294 | any list of values below 2^32 - 1, written at any offset over anything and read back, is returned, and reading ends where writing ended |
| ExpGolomb.SignedRoundTrip | anyrtc/jni/webrtc/base/bitbuffer.cc:190-308 | the same for signed values other than INT_MIN |
| ExpGolomb.DecodeEncode | anyrtc/jni/webrtc/base/bitbuffer.cc:158-188 | reading a code returns its value and stops right after it, whatever surrounds it |
| ExpGolomb.EncodeDecode | anyrtc/jni/webrtc/base/bitbuffer.cc:158-188 | whatever is accepted is exactly the code of the value returned |
| ExpGolomb.LargestValueIsLost | anyrtc/jni/webrtc/base/bitbuffer.cc:283-287 | the code of 2^32 - 1 could not be read back, which is why it is refused |
| ExpGolomb.FirstCodes | anyrtc/jni/webrtc/base/bitbuffer.cc:282-294 | the codes of 0 to 3 are 1, 010, 011 and 00100 |
| ExpGolomb.SignedMapping | anyrtc/jni/webrtc/base/bitbuffer.cc:195-199 | the signed mapping and its inverse: positive values are odd numbers, the others even ones; and which values stay within 32 bits |
| ExpGolomb.ReadBackBits | anyrtc/jni/webrtc/base/bitbuffer.cc:140-142 | reading the n bits just written gives the value modulo 2^n |
| FileRotatingStream.LogKeepsBothEnds | anyrtc/jni/webrtc/base/filerotatingstream.cc:93-171 | a reader of the directory of a call-session log, in whatever order its files are listed, gets the whole stream exactly as long as it fits, and afterwards the first half of the budget followed by a suffix of at least all rotating files but one; never more than the budget (for a log that had not rotated when it was last opened) |
| FileRotatingStream.ReopenedLogKeepsTheEnd | anyrtc/jni/webrtc/base/filerotatingstream.cc:93-222 | for a log that had rotated before it was last opened: the reader gets the whole of what was written since exactly as long as it fits in the rotating files, and afterwards a suffix of at least all of them but one; the promise of both ends holds if and only if nothing has been lost |
| LogLayout.Kept | anyrtc/jni/webrtc/base/filerotatingstream.cc:278-304 | the same for the files in order of age |
| LogLayout.KeptInNumbers | anyrtc/jni/webrtc/base/filerotatingstream.cc:354-398 | in terms of the budget alone: its first half is kept, the whole stream while it is shorter than the budget less 1 MB and 3 bytes, and afterwards a suffix of at least a quarter of the budget with two rotating files, and of at least half of it less 2 MB with more |
| LogLayout.KeptReopened | anyrtc/jni/webrtc/base/filerotatingstream.cc:278-304 | so is what is left for a log opened again |
| LogLayout.BothEndsReopened | anyrtc/jni/webrtc/base/filerotatingstream.cc:204-222 | of such a log both ends are kept if and only if less has been written since than the rotating files hold |
| LogLayout.EndInNumbers | anyrtc/jni/webrtc/base/filerotatingstream.cc:354-398 | the same for a log opened again: the whole while it is shorter than half the budget less 1 MB and 3 bytes, and afterwards a suffix of that length |
| LogLayout.LayoutUnique | anyrtc/jni/webrtc/base/filerotatingstream.cc:278-304 | the files are determined by the bytes written alone |
| LogLayout.LaterRotation | anyrtc/jni/webrtc/base/filerotatingstream.cc:370-381 | a rotation leads from the layout of n complete files to that of n + 1, and in the end spares the first file |
| LogLayout.FirstRotation | anyrtc/jni/webrtc/base/filerotatingstream.cc:370-381 | so does the first rotation, after which the files are smaller |
| LogLayout.WrittenRotated | anyrtc/jni/webrtc/base/filerotatingstream.cc:278-381 | in any session a rotation of a full file, at the index and size that the count of rotations gives, leads from the layout for that count to the one for the next |
| LogLayout.WrittenTooShort | anyrtc/jni/webrtc/base/filerotatingstream.cc:161-170 | rotating a file that is not full leads to no layout of the stream |
| LogLayout.WithinBudget | anyrtc/jni/webrtc/base/filerotatingstream.cc:383-398 | the first file and all rotating files together fit in the budget |
| FileRotatingStream.CallSessionFileRotatingStream.constructor | anyrtc/jni/webrtc/base/filerotatingstream.cc:354-365 | the first file may hold half the budget; number and names of the files |
| FileRotatingStream.CallSessionFileRotatingStream.Open | anyrtc/jni/webrtc/base/filerotatingstream.cc:204-222 | old files are gone and the current file is empty; it may be called at any time, and the count of rotations stays |
| FileRotatingStream.CallSessionFileRotatingStream.Write | anyrtc/jni/webrtc/base/filerotatingstream.cc:143-171 | writes as much as fits in the current file or as the file system takes, and leaves the layout of the longer stream; without an open file it fails and nothing changes; when the file system takes nothing, the bytes counted grow by whatever count the caller had stored, and the layout survives if and only if that is zero |
| FileRotatingStream.CallSessionFileRotatingStream.RotateFiles | anyrtc/jni/webrtc/base/filerotatingstream.cc:278-304 | moves the files, and keeps the layout if and only if the current file is full |
| FileRotatingStream.CallSessionFileRotatingStream.MoveFiles | anyrtc/jni/webrtc/base/filerotatingstream.cc:286-301 | the deletion and the renaming loop move each file to the next name, drop the one at the rotation index and spare those above it |
| FileRotatingStream.CallSessionFileRotatingStream.OnRotation | anyrtc/jni/webrtc/base/filerotatingstream.cc:370-381 | the file size after the first rotation, and the rotation index once the first file has reached its place |
| FileRotatingStream.CallSessionFileRotatingStream.LayoutHolds | anyrtc/jni/webrtc/base/filerotatingstream.cc:143-304 | at any time the directory holds the layout of the bytes written since the log was last opened, under the names of the log |
| FileRotatingStream.FileReader.Read | anyrtc/jni/webrtc/base/filerotatingstream.cc:93-141 | a call that succeeds returns the next bytes of what remains; a file that does not open is an error that changes nothing, one that cannot be read is an error that gives up the rest of that file; calls with room for bytes come to the end after finitely many that open their file |
| FileRotatingStream.FileReader.NextFile | anyrtc/jni/webrtc/base/filerotatingstream.cc:117-127 | goes on with the next newer file, or comes to the end |
| FileRotatingStream.ReaderSeesFiles | anyrtc/jni/webrtc/base/filerotatingstream.cc:69-76 | the sorted listing is the files of the log, newest first |
| LogNames.NamesInOrder | anyrtc/jni/webrtc/base/filerotatingstream.cc:326-345 | for i < j the name made for i is lexicographically smaller than that for j, despite the padding by i / 10 |
| LogNames.SortedListing | anyrtc/jni/webrtc/base/filerotatingstream.cc:69-74 | sorting any listing of the files by name puts the i-th newest at i |
| LogNames.GetFilePath | anyrtc/jni/webrtc/base/filerotatingstream.cc:326-345 | the padding loop makes that name |
| LogNames.DecimalDenotes | anyrtc/jni/webrtc/base/filerotatingstream.cc:341 | the digits in a name denote its index |
| LogNames.SomeNames | anyrtc/jni/webrtc/base/filerotatingstream.cc:326-345 | names of three files and of twelve |
| Base64.DecodeEncode | anyrtc/jni/webrtc/base/base64.cc:98-258 | decoding the text of any byte string gives it back under all flags; the text is used up, and decoding succeeds whatever may follow, exactly if pads are allowed or passed over or the length is divisible by three; otherwise what is left is the pads |
| Base64.DecodeUnpadded | anyrtc/jni/webrtc/base/base64.cc:204-258 | the text without its pads gives the bytes back as well, with success unless pads are required and missing |
| Base64.FlagsDecideSuccess | anyrtc/jni/webrtc/base/base64.cc:241-253 | termination and required padding decide about success alone, and how |
| Base64.EncodeDecode | anyrtc/jni/webrtc/base/base64.cc:138-258 | every text accepted by strict decoding is exactly the encoding of the bytes returned |
| Base64.DecodeClean | anyrtc/jni/webrtc/base/base64.cc:145-176 | with padding not required, result and success do not change when all characters are removed that the decoder passes over: whitespace unless it is strict, and everything outside the alphabet if it takes anything |
| Base64.DecodeCleanPadded | anyrtc/jni/webrtc/base/base64.cc:145-246 | with padding required, removing these characters changes neither the bytes nor the success, if and only if the text does not trail off (end with such a character after whole quanta that need no pads); if it does, decoding fails and the cleaned text decodes |
| Base64.NeedsPadding | anyrtc/jni/webrtc/base/base64.cc:244-246 | a family in which the text trails off: nothing but such characters, which fails, where the empty text succeeds |
| Base64.StrictQuantum | anyrtc/jni/webrtc/base/base64.cc:138-190 | what strict decoding accepts as one quantum: four symbols, or two or three with their pads |
| Base64.TablesAgree | anyrtc/jni/webrtc/base/base64.cc:28-69 | the two tables are inverse to each other |
| Base64.SymbolsAreAlphabet | anyrtc/jni/webrtc/base/base64.cc:28-69 | they are the alphabet A-Z, a-z, 0-9, + and / |
| Base64.PassedByNumber | anyrtc/jni/webrtc/base/base64.cc:43-44 | the characters passed over, by number: 9 to 13 and 32 unless strict, and all but the alphabet under Anything, pads only where forbidden |
| Base64.GroupsAreBits | anyrtc/jni/webrtc/base/base64.cc:108-135 | the groups of six bits are the bits of the bytes in order |
| Base64.Vectors | anyrtc/jni/webrtc/base/base64.cc:98-136 | three test vectors of section 10 of RFC 4648 |
| Base64.EncodeFromArray | anyrtc/jni/webrtc/base/base64.cc:98-136 | the loop produces `Encode` |
| Base64.GetNextQuantum | anyrtc/jni/webrtc/base/base64.cc:138-190 | the search, with skipped characters, pads and the roll-back of too few pads, comes to `NextQuantum` |
| Base64.DecodeFromArray | anyrtc/jni/webrtc/base/base64.cc:204-258 | the loop returns the bytes, the success and the length used of `Decode` |
| Crc32.Crc32Table.UpdateCrc32 | anyrtc/jni/webrtc/base/crc32.cc:40-49 | the table-driven loop computes bit-at-a-time division by the reflected polynomial 0xEDB88320, for every start and every byte string |
| Crc32.Crc32Table.EnsureInited | anyrtc/jni/webrtc/base/crc32.cc:24-38 | afterwards each entry is its index shifted eight times, whether or not the table was filled before |
| Crc32.TableStep | anyrtc/jni/webrtc/base/crc32.cc:46 | one table look-up is eight bits of division |
| Crc32.CrcConcat | anyrtc/jni/webrtc/base/crc32.cc:40-49 | updating with a and then with b is updating with a + b |
| Crc32.BurstsAreDetected | anyrtc/jni/webrtc/base/crc32.cc:40-49 | messages of one length that differ, and only within 32 consecutive bits, have different checksums |
| Crc32.CheckValue | anyrtc/jni/webrtc/base/crc32.cc:21-49 | the checksum of the digits 1 to 9 is 0xCBF43926 |
| Crc32.BurstChangesRegister | anyrtc/jni/webrtc/base/crc32.cc:45-47 | the same for the register and any two bit strings |
| Crc32.FeedInjective | anyrtc/jni/webrtc/base/crc32.cc:45-47 | different registers stay different under the same input |
| NalUnits.NextNaluPosition | anyrtc/jni/androidmediaencoder_jni.cc:1103-1133 | the skipping search returns the least position of a start code with something after it, or -1 exactly if there is none |
| NalUnits.StartsInBytes | anyrtc/jni/androidmediaencoder_jni.cc:1103-1133 | start codes are the bytes 0, 0, 0 and 1 with something after them |
| NalUnits.StartsComplete | anyrtc/jni/androidmediaencoder_jni.cc:1004-1014 | the positions found are in order, and only start codes after the 32nd are missing |
| NalUnits.TableIsSound | anyrtc/jni/androidmediaencoder_jni.cc:1023-1031 | at most 32 fragments, of non-negative length, each followed by a start code and the next fragment, the last one ending with the payload |
| NalUnits.JoinSplit | anyrtc/jni/androidmediaencoder_jni.cc:1001-1031 | start codes and fragments put together are the payload from its first start code to its end |
| NalUnits.SplitJoin | anyrtc/jni/androidmediaencoder_jni.cc:1001-1031 | units without start codes inside are recovered if and only if there are at most 32 and the last one is not empty |
| NalUnits.FragmentTable | anyrtc/jni/androidmediaencoder_jni.cc:1001-1031 | the two loops build that table, and report failure exactly if it is empty |
| NalUnits.FindStarts | anyrtc/jni/androidmediaencoder_jni.cc:1001-1014 | the array of positions |
| DiskCache.ReadersExcludeWriters | anyrtc/jni/webrtc/base/diskcache.cc:115-173 | in every valid state, open readers of an entry mean that it is unlocked, open writers that it is locked or about to be unlocked, and never both; an entry with either is not idle and so cannot be erased |
| DiskCache.DiskCache.LockResource | anyrtc/jni/webrtc/base/diskcache.cc:101-113 | who gets the lock and the new entries, for every outcome of eviction; unless a file is kept, eviction succeeds if and only if `Clears` holds of the entries before it; the source writes through a dangling pointer if and only if it succeeds and takes the entry being locked, which is `CanLose`; an entry just created is empty and dated now, and is spared if all others are older |
| Eviction.LosesExactly | anyrtc/jni/webrtc/base/diskcache.cc:107-251 | eviction takes a given entry and comes within the limit, if and only if `Clears` holds and it becomes the turn of that entry: erasing all idle entries before it is not enough |
| Eviction.EvictsExactly | anyrtc/jni/webrtc/base/diskcache.cc:216-251 | eviction comes within the limit if and only if, of the entries before it, those in use are within the limit, and each idle one whose turn it becomes is what the search comes to then |
| Eviction.TakenExactly | anyrtc/jni/webrtc/base/diskcache.cc:230-245 | which is the case if and only if some entry follows the first idle one left, and the one whose turn it is beats the entries in use after that |
| Eviction.TakenInTurn | anyrtc/jni/webrtc/base/diskcache.cc:228-245 | idle entries are erased by time, those of one second by id, except that the first one goes after those of its second that directly follow it |
| Eviction.SweptExactly | anyrtc/jni/webrtc/base/diskcache.cc:216-251 | however an eviction ends, the entries before it decide whether it succeeds, unless a file is kept, and which ones are left |
| Eviction.LostEntry | anyrtc/jni/webrtc/base/diskcache.cc:107-111 | such a state: of two idle entries, which the search finds, the older one is too large |
| Eviction.NewestIsSafe | anyrtc/jni/webrtc/base/diskcache.cc:101-111 | an empty entry newer than all others cannot be lost |
| DiskCache.DiskCache.WriteResource | anyrtc/jni/webrtc/base/diskcache.cc:115-141 | opens only under the lock; the new entry, adapter and total size |
| DiskCache.DiskCache.UnlockResource | anyrtc/jni/webrtc/base/diskcache.cc:143-156 | unlocks at once without writers, and then evicts; otherwise leaves that to the last writer |
| DiskCache.DiskCache.ReadResource | anyrtc/jni/webrtc/base/diskcache.cc:158-173 | opens only unlocked entries and existing streams; the new entry and adapter |
| DiskCache.DiskCache.ReleaseResource | anyrtc/jni/webrtc/base/diskcache.cc:318-347 | gives back one access, counts what a writer has written, and after the last writer unlocks and evicts |
| DiskCache.DiskCache.DeleteResource | anyrtc/jni/webrtc/base/diskcache.cc:190-214 | erases exactly idle entries, also when a file cannot be deleted, and keeps the total size right |
| DiskCache.DiskCache.CheckLimit | anyrtc/jni/webrtc/base/diskcache.cc:216-251 | terminates; every entry erased is what the search finds among those left, is idle, and is erased over the limit; all others stay; unless a file is kept, it succeeds if and only if `Clears` holds of the entries before, and then exactly the entries whose turn it becomes are gone |
| DiskCache.DiskCache.EvictOne | anyrtc/jni/webrtc/base/diskcache.cc:229-248 | one round: erases what the search finds, or tells why not |
| Eviction.BlockedByOlder | anyrtc/jni/webrtc/base/diskcache.cc:240-248 | when eviction comes to a halt at an entry in use, one of these was not newer than some idle entry, and erasing all idle entries older than it would not have been enough |
| DiskCache.DiskCache.FindVictim | anyrtc/jni/webrtc/base/diskcache.cc:229-243 | the two loops find the entry that beats all others from the first idle one on, by time, then the one after the first idle one, then by id; or nothing is idle; or they run past the end of the map, which is when the first idle entry is the last of all |
| DiskCache.DiskCache.ListEntries | anyrtc/jni/webrtc/base/diskcache.cc:230 | the map is passed through in the order of the ids |
| Eviction.VictimIsIdle | anyrtc/jni/webrtc/base/diskcache.cc:229-248 | what the search comes to is idle if and only if each entry in use, from the first idle one on, is beaten by some idle one |
| Eviction.LockedVictim | anyrtc/jni/webrtc/base/diskcache.cc:240-248 | a state in which it is not: it is locked, although there is an idle entry |
| Eviction.LockedKeeps | anyrtc/jni/webrtc/base/diskcache.cc:240-248 | in that state eviction does not succeed and the idle entry is not lost |
| DiskCache.DiskCache.Purge | anyrtc/jni/webrtc/base/diskcache.cc:85-99 | fails without a folder, with open streams, or when files stay; otherwise forgets the entries but not their total size: the invariants hold afterwards if and only if the total was zero |
| DiskCache.DiskCache.InitializeEntries | anyrtc/jni/webrtc/base/diskcache.cc:71-83 | the total of the entries found is the sum of their sizes |
| DiskCache.DiskCache.Initialize | anyrtc/jni/webrtc/base/diskcache.cc:71-83 | once only; takes over the entries found and evicts; since none is in use, it fails only if a file cannot be deleted or the search runs past the end; exactly when, and which entries are left |
| DiskCache.OpenAdapter | anyrtc/jni/webrtc/base/diskcache.cc:137-140 | one more access keeps the counts equal to the open adapters |
| DiskCache.CloseAdapter | anyrtc/jni/webrtc/base/diskcache.cc:326-327 | so does one access less |
| CopyOnWriteBuffer.CopyOnWriteBuffer.OnlyOwner | anyrtc/jni/webrtc/base/copyonwritebuffer.h:271-274 | a reference count of one means that no other handle sees the object |
| CopyOnWriteBuffer.CopyOnWriteBuffer.CloneDataIfReferenced | anyrtc/jni/webrtc/base/copyonwritebuffer.h:271-279 | afterwards the handle has an object of its own with the same bytes |
| CopyOnWriteBuffer.CopyOnWriteBuffer.AppendData | anyrtc/jni/webrtc/base/copyonwritebuffer.h:187-199 | appends to this handle's bytes and changes nobody else's; the result is consistent if and only if there was an object or there is something to append |
| CopyOnWriteBuffer.CopyOnWriteBuffer.SetData | anyrtc/jni/webrtc/base/copyonwritebuffer.h:156-165 | replaces this handle's bytes and changes nobody else's |
| CopyOnWriteBuffer.CopyOnWriteBuffer.Assign | anyrtc/jni/webrtc/base/copyonwritebuffer.h:110-116 | takes over the bytes of the other handle; all others stay |
| CopyOnWriteBuffer.CopyOnWriteBuffer.MoveFrom | anyrtc/jni/webrtc/base/copyonwritebuffer.h:119-126 | takes over the bytes of the other handle and leaves it empty |
| CopyOnWriteBuffer.CopyOnWriteBuffer.Swap | anyrtc/jni/webrtc/base/copyonwritebuffer.h:264-266 | exchanges the bytes of two handles; all others stay |
| CopyOnWriteBuffer.CopyOnWriteBuffer.SetSize | anyrtc/jni/webrtc/base/copyonwritebuffer.h:217-230 | truncates or extends this handle's bytes and changes nobody else's |
| CopyOnWriteBuffer.CopyOnWriteBuffer.EnsureCapacity | anyrtc/jni/webrtc/base/copyonwritebuffer.h:235-250 | no bytes change anywhere, and there is room |
| CopyOnWriteBuffer.CopyOnWriteBuffer.Clear | anyrtc/jni/webrtc/base/copyonwritebuffer.h:253-261 | empties this handle only; the object is given up if and only if it is shared, and an object kept keeps its capacity, which is documented to be reset |
| CopyOnWriteBuffer.CopyOnWriteBuffer.Data | anyrtc/jni/webrtc/base/copyonwritebuffer.h:78-85 | the writable pointer is to storage that no other handle sees |
| CopyOnWriteBuffer.CopyOnWriteBuffer.SetByte | anyrtc/jni/webrtc/base/copyonwritebuffer.h:141-144 | writing one byte changes this handle only |
| CopyOnWriteBuffer.CopyOnWriteBuffer.Equals | anyrtc/jni/webrtc/base/copyonwritebuffer.h:128-135 | equality of bytes for two null or two non-null handles; a null one equals no other |
| CopyOnWriteBuffer.CopyOnWriteBuffer.Destroy | anyrtc/jni/webrtc/base/copyonwritebuffer.cc:40 | the last handle of an object may go, and the others keep their bytes |
| ByteBuffer.RoundTrip | anyrtc/jni/webrtc/base/bytebuffer.cc:63-280 | any list of fixed-width numbers, varints and byte strings, written and then read in the same order, comes back, in either byte order |
| ByteBuffer.VarintRoundTrip | anyrtc/jni/webrtc/base/bytebuffer.cc:94-103 | a varint takes at most n bytes for values below 128^n, so ten for 64 bits, and reading it stops right after it |
| ByteBuffer.VarintBytes | anyrtc/jni/webrtc/base/bytebuffer.cc:94-103 | each byte holds the next seven bits, and all but the last are marked |
| ByteBuffer.LayoutRoundTrip | anyrtc/jni/webrtc/base/byteorder.h:38-81 | a number comes back from n bytes if and only if it fits in them |
| ByteOrder.BigEndianRoundTrip | anyrtc/jni/webrtc/base/byteorder.h:38-81 | the same for big-endian bytes |
| ByteOrder.BigEndianUnique | anyrtc/jni/webrtc/base/byteorder.h:61-81 | bytes are determined by the number that they stand for |
| ByteOrder.BytesOf | anyrtc/jni/webrtc/base/byteorder.h:38-104 | each byte of a number, in either order |
| ByteOrder.OrdersMirror | anyrtc/jni/webrtc/base/byteorder.h:83-104 | little-endian bytes are the big-endian ones reversed |
| ByteOrder.NetworkInMemory | anyrtc/jni/webrtc/base/byteorder.h:134-150 | the word made for the network lies in the memory of a little-endian host most significant byte first |
| ByteOrder.NetworkFromMemory | anyrtc/jni/webrtc/base/byteorder.h:152-162 | a word read from such memory is turned into its number |
| ByteOrder.SwapsBytes | anyrtc/jni/webrtc/base/byteorder.h:134-162 | both conversions reverse the bytes of a word, and the number comes back if and only if it fits |
| ByteBuffer.ByteBufferWriter.Resize | anyrtc/jni/webrtc/base/bytebuffer.cc:122-137 | cuts off or keeps the contents, moved to the beginning |
| ByteBuffer.ByteBufferWriter.ReserveWriteBuffer | anyrtc/jni/webrtc/base/bytebuffer.cc:113-120 | keeps the contents and adds room after them |
| ByteBuffer.ByteBufferWriter.WriteBytes | anyrtc/jni/webrtc/base/bytebuffer.cc:109-111 | appends, whatever resizes that takes |
| ByteBuffer.ByteBufferWriter.WriteFixed | anyrtc/jni/webrtc/base/bytebuffer.cc:63-89 | appends the number in the byte order of the buffer: the word in the memory of the host, swapped for the network |
| ByteBuffer.ByteBufferWriter.WriteUInt24 | anyrtc/jni/webrtc/base/bytebuffer.cc:72-79 | three bytes of a word of four, from the second one on if it is swapped, are the number in 24 bits |
| ByteBuffer.ByteBufferWriter.WriteUVarint | anyrtc/jni/webrtc/base/bytebuffer.cc:94-103 | the loop appends the varint |
| ByteBuffer.ByteBufferReader.ReadBytes | anyrtc/jni/webrtc/base/bytebuffer.cc:272-280 | the next bytes, or a failure that moves nothing |
| ByteBuffer.ByteBufferReader.ReadFixed | anyrtc/jni/webrtc/base/bytebuffer.cc:178-235 | the number in the next bytes, swapped if they come from the network; a failure moves nothing |
| ByteBuffer.ByteBufferReader.ReadUInt24 | anyrtc/jni/webrtc/base/bytebuffer.cc:197-212 | three bytes read into a word of four that is zero, from the second one on if it is swapped, give the number |
| ByteBuffer.ByteBufferReader.ReadUVarint | anyrtc/jni/webrtc/base/bytebuffer.cc:237-258 | the loop returns the number of the next varint modulo 2^64; a failure uses up to ten bytes |
| VideoBitrate.NoFlapping | anyrtc/jni/AnyCore/avcodec.cc:246-295 | over any sequence of delays, the number of times the bitrate changes direction is at most one for every 1000 ms of up and down of the delay |
| VideoBitrate.ReversalSwing | anyrtc/jni/AnyCore/avcodec.cc:246-295 | two successive switches in opposite directions are at least 1000 ms of delay apart |
| VideoBitrate.V_H264Encoder.SetNetDelay | anyrtc/jni/AnyCore/avcodec.cc:246-295 | the level that a delay leads to: 10000, 5000, 3000 or 0 well inside its band, never below the band, a new one never above the delay, and otherwise unchanged; and that the bitrate is the base times 1, 3/4, 1/2 or 1/3, rounded down, for it |
| PlyBuffer.PlyBuffer.SoFar | anyrtc/jni/AnyCore/plybuffer.cc:129-243 | over the whole run: video has been handed over once and in order of arrival, the decoder plays exactly in the normal state, half of the calls were pauses, and the k-th pause was to buffer for min(2^(k-1), 8) seconds |
| PlyBuffer.PlyBuffer.DoDecode | anyrtc/jni/AnyCore/plybuffer.cc:129-243 | when playing starts, pauses and resumes, with each reading of the clock; OnPlay and OnPause alternate; one more target with each pause; which video packet is handed over |
| PlyBuffer.PlyBuffer.PlayOrPause | anyrtc/jni/AnyCore/plybuffer.cc:165-212 | the normal state: the packet that is due, and the pause when little is buffered |
| PlyBuffer.PlyBuffer.StartCaching | anyrtc/jni/AnyCore/plybuffer.cc:202-210 | the pause extends the list of targets by the next power of two, up to eight seconds |
| PlyBuffer.PlyBuffer.ResumePlaying | anyrtc/jni/AnyCore/plybuffer.cc:213-242 | the cache state: when it ends, and the times that move otherwise |
| PlyBuffer.PlyBuffer.StartPlaying | anyrtc/jni/AnyCore/plybuffer.cc:134-164 | the fast state: when it ends |
| PlyBuffer.PlyBuffer.StartsWhen | anyrtc/jni/AnyCore/plybuffer.cc:134-162 | in milliseconds: after 250, with more than 250 of audio; or with any video after 1000 without audio |
| PlyBuffer.PlyBuffer.CacheH264Data | anyrtc/jni/AnyCore/plybuffer.cc:86-97 | a packet of video arrives |
| PlyBuffer.PlyBuffer.CachePcmData | anyrtc/jni/AnyCore/plybuffer.cc:99-114 | a packet of audio arrives; when the clock starts without video |
| PlyBuffer.PlyBuffer.GetPlayAudio | anyrtc/jni/AnyCore/plybuffer.cc:71-85 | the next packet of audio sets the time of playing |
| PlyBuffer.PlyBuffer.OnPlay | anyrtc/jni/AnyCore/plydecoder.cc:185-188 | the decoder plays after OnPlay |
| PlyBuffer.PlyBuffer.OnPause | anyrtc/jni/AnyCore/plydecoder.cc:189-192 | and does not after OnPause |
| FileRotatingStream.CallSessionFileRotatingStream.Close | anyrtc/jni/webrtc/base/filerotatingstream.cc:270-276 | the current file is closed; the files stay |
| FileRotatingStream.FileReader.constructor | anyrtc/jni/webrtc/base/filerotatingstream.cc:69-78 | everything remains to be read, starting with the oldest file |
| PlyBuffer.PlyBuffer.SetCacheSize | anyrtc/jni/AnyCore/plybuffer.cc:65-70 | only sizes above 500 and up to 600000 ms are taken |
| PlyBuffer.PlyBuffer.MediaTime | anyrtc/jni/AnyCore/plybuffer.cc:167-179 | the time buffered, of audio or else of video |
| PlyBuffer.PlyBuffer.AudioLeads | anyrtc/jni/AnyCore/plybuffer.cc:166-181 | audio measures the buffer and the time of playing as soon as there has been any; until then video does, by the clock |
| PlyBuffer.PlyBuffer.TakeVideo | anyrtc/jni/AnyCore/plybuffer.cc:181-198 | the first video packet, if it is due, goes to the decoder |
| Buffers.Buffer.EnsureCapacity | anyrtc/jni/webrtc/base/buffer.h:282-286 | elements are kept and the capacity is at least the one asked for |
| Buffers.Buffer.Clear | anyrtc/jni/webrtc/base/buffer.h:290-293 | no elements, same storage |
| Buffers.Buffer.FromData | anyrtc/jni/webrtc/base/buffer.h:91-98 | a buffer with these elements and the greater of size and capacity |
| Buffers.Buffer.Sized | anyrtc/jni/webrtc/base/buffer.h:78-87 | uninitialised elements |
| Buffers.MoveDown | anyrtc/jni/webrtc/base/asynctcpsocket.cc:168-170 | overlapping bytes move to the front of the array unharmed |
| AsyncTcpSocket.StreamSocket.Recv | anyrtc/jni/webrtc/base/asynctcpsocket.cc:212-213 | the stream socket below may fill any part of the window it is given, or fail |
| AsyncTcpSocket.AsyncTcpSocket.constructor | anyrtc/jni/webrtc/base/asynctcpsocket.cc:60-69 | both ends start empty |
| Crc32.Crc32Table.ComputeEntry | anyrtc/jni/webrtc/base/crc32.cc:27-36 | the inner loop shifts eight times |
| Base64.EncodeQuantum | anyrtc/jni/webrtc/base/base64.cc:108-135 | up to three bytes into four characters |
| Base64.FindValues | anyrtc/jni/webrtc/base/base64.cc:141-176 | the loop over the characters comes to the same state as `Finish` |
| Base64.Unpack | anyrtc/jni/webrtc/base/base64.cc:228-242 | bytes and left-over bits of a quantum |
| BitBuffer.BitBuffer.SkipZeros | anyrtc/jni/webrtc/base/bitbuffer.cc:168-173 | counts the zero bits ahead and stops before the first one |
| BitBuffer.BitBuffer.PeekFurther | anyrtc/jni/webrtc/base/bitbuffer.cc:123-137 | whole bytes and the start of one more, appended to the bits read before |
| BitBuffer.BitBuffer.StorePartly | anyrtc/jni/webrtc/base/bitbuffer.cc:251-255 | one partial byte of the bits being written |
| BitBuffer.BitBuffer.StoreRest | anyrtc/jni/webrtc/base/bitbuffer.cc:261-276 | the bytes after the first one |
| CopyOnWriteBuffer.CopyOnWriteBuffer.constructor | anyrtc/jni/webrtc/base/copyonwritebuffer.cc:15-17 | a new handle is empty |

## Left out

- Framing.DeliveredIsPrefix: for packets of at most 65535 bytes, because longer ones are framed wrongly by the code; `Framing.FramesRoundTrip` is the exact condition, and all other results hold for packets of any length.
- Framing.Sender.Sends: SignalSentPacket and SignalReadPacket are histories of packets; packet options, time stamps and error numbers are not modelled.
- AsyncTcpSocket.AsyncTcpSocket.Send: the debug check on the output buffer is reported, and the buffer then grows, as in a release build. SendTo, SendRaw and listening sockets are left out.
- BitBuffer.BitBuffer.WriteBits: not for 0 bits, where the source shifts a 64-bit value by 64, nor for more than 64.
- BitBuffer.BitBuffer.PeekBits: null result pointers are not modelled; for 0 bits the byte at the offset must exist, because the source reads it.
- FileRotatingStream.CallSessionFileRotatingStream.Write: what the log does after a failed write that has broken the layout. Writing is not buffered.
- FileRotatingStream.CallSessionFileRotatingStream.Open: files can be deleted, renamed and created. The base class without OnRotation, buffering and GetSize are left out.
- FileRotatingStream.FileReader.Read: the files do not change while they are read.
- CriticalSection.MutualExclusion: `lock_queue_` does not overflow, atomics are sequentially consistent, and callers leave only what they have entered. The debug-only thread fields, the Windows and pthread variants and GlobalLockPod are left out.
- Base64.EncodeFromArray: bytes are numbers, and combining disjoint bits is addition.
- Crc32.Crc32Table.UpdateCrc32: the table is a field of an object instead of a global.
- NalUnits.FragmentTable: positions are unbounded, so the cast of a position to 32 bits is not modelled.
- DiskCache.DiskCache.FindVictim: where the source runs past the end of the map, its behaviour is undefined, and the model stops eviction there and reports it. Times are whole numbers of no particular width.
- DiskCache.DiskCache.LockResource: when the entry being locked is evicted, that is reported and the model stops.
- DiskCache.DiskCache.WriteResource: file sizes are whatever the environment says; that they match the sizes recorded is not modelled. Writing, unlocking and reading need an existing entry, as the source follows a null pointer otherwise.
- DiskCache.DiskCache.InitializeEntries: which files are found is up to the subclass and cannot fail; no entry found is in use; file names are left out.
- CopyOnWriteBuffer.CopyOnWriteBuffer.AppendData: appending a handle to itself is left out, because the bytes are a value here and a pointer into the buffer being reallocated there.
- CopyOnWriteBuffer.CopyOnWriteBuffer.Swap: counts go up and down as in an exchange through copies; threads that share objects are left out.
- ByteBuffer.RoundTrip: for a little-endian host.
- ByteBuffer.ByteBufferReader.ReadUVarint: combining a shifted value with or is addition, as its bits are zero there.
- VideoBitrate.V_H264Encoder.SetNetDelay: bitrates are not negative and tripling one does not overflow; SetParameter and SetAutoAdjustBit are left out.
- PlyBuffer.PlyBuffer.DoDecode: locks, packet ownership and the decoder's own queue are left out.
- JNI, MediaCodec, Direct3D and Media SDK code, the RTMP threads, codec threads and statistics, BandwidthSmoother, AsyncInvoker, BufferQueue, FirewallSocketServer and FormatCryptString: foreign calls, floating point, or easy members.

# A verified model of the web display server

The web display server shows the windows of local clients in a browser. It speaks the WebSocket
protocol of RFC 6455 to the browser ("the viewer"), copies the pixels a local client sends into a
shadow frame buffer, and tells the viewer where a fresh picture of the changed rectangle is.

This project models the byte-level algorithms of the server and proves what they promise. Code
that changes state in place in the C sources is imperative here too: classes with the fields of
the C structures, arrays that are overwritten in place, loops with invariants. Each such method is
proved against a specification function, and the laws are proved about those functions.

| part | files |
|---|---|
| bytes, numbers in memory and on the wire | `Bytes.dfy` |
| UTF-8 automaton, validator, decoder, sanitiser | `Utf8.dfy`, `Sanitize.dfy` |
| SHA-1: RFC 3174, the rolling schedule, the streaming context | `Sha1Spec.dfy`, `Sha1.dfy`, `Sha1Stream.dfy` |
| base64 and the accept value of the handshake | `Base64.dfy`, `Handshake.dfy` |
| request headers | `HeaderLine.dfy`, `Headers.dfy` |
| frame headers and a receiving peer | `Wire.dfy` |
| sending: partial sends, the queue, throttling | `Outbound.dfy` |
| receiving: the one-pass parser, its wire format, streams of frames | `Receive.dfy`, `Frames.dfy`, `Messages.dfy` |
| receiving: the state machine of the C code | `ReceiveMachine.dfy` |
| receiving and sending put together | `Server.dfy` |
| pixels and rectangles, the shadow buffer, the viewer's canvas | `Pixels.dfy`, `ShadowBuffer.dfy`, `Display.dfy` |
| announced updates on their way to the viewer | `Screen.dfy` |
| the H.264 unit splitter | `Nal.dfy` |
| known answers of RFC 6455, RFC 3174 and RFC 3629 | `Sha1Example.dfy`, `Examples.dfy` |

The main results, in words:

- Receiving does not depend on how `recv` cuts the stream: in every state between two calls the
  machine's fields, the messages delivered and the frames sent back are those of a one-pass parser
  on the bytes taken so far (`ReceiveMachine.ReceivingClient.GetMessage` and `Run`, `Server.Serve`).
  Every payload byte is written inside the allocated buffer, and `payloadsz` is always the start of
  the current frame's payload plus `buflen`. While data keeps coming, every call takes some of it.
- Whatever bytes a viewer sends, a delivered message is the unmasked payloads of consecutive
  frames that form one whole message, each with its own key, pings between them left out, and a
  delivered text is well-formed UTF-8; the frames of later messages lie behind those of earlier
  ones, so nothing is delivered twice or out of order; and a whole message is delivered.
- Pings change no message and are answered in order. A stream of frames leaves the connection open
  if and only if each frame may follow the ones before it; every frame that may has one stated
  effect, and the first that may not closes the connection with one stated close frame, or
  without a word, after which nothing else counts (`Messages.OpenIff`, `KeptOpen`, `ClosedBy`).
- Every frame sent is, byte by byte, the one RFC 6455 prescribes, with the shortest length form
  (`Outbound.BuildFrame`, `Frames.LengthMinimal`).
- Sending conserves bytes: what the kernel took, followed by what is queued, is the concatenation
  of the whole frames accepted, so a peer recovers from any prefix exactly the frames that lie in
  it whole, also when throttling drops frames; the queue stays within a bound that every read and
  every broken pipe raises by at most one buffer, since they wipe the throttling; and no frame is
  dropped while less than the throttle threshold has been asked for.
- An echoing server asks for exactly the messages that would otherwise be delivered to be sent
  back, unchanged, with the pongs and the close frame between them. The viewer reads those of these
  frames that the sending side took, in order and whole: all of them if it stays, the queue is
  drained and less than the throttle threshold was asked for (`Server.Echo`).
- The shadow buffer and the canvas that all announced updates draw agree on every pixel ever
  received that is not waiting in the dirty rectangle. From the bytes sent the viewer draws some of
  the announced updates, in order. After a flush it sees all pixels right if and only if those
  give each pixel the colour that all of them would (`Screen.Show`).
- `sanitize_utf8` terminates although it steps its index back, its output is well-formed UTF-8,
  and it changes exactly the strings the validator refuses. Well-formed text in front of malformed
  bytes or behind them is kept (`Sanitize.SanitizedFront`, `Sanitize.SanitizedBehind`).
- The in-place 16-word SHA-1 schedule with renamed registers is the 80-word schedule of RFC 3174,
  and the streaming context gives the digest of the whole message however it was cut. For the key
  of RFC 6455, section 1.3, the accept value is the one printed there (`Examples.SampleAccepted`).
- The start codes the H.264 scanner accepts are exactly those whose run of zeros has a length that
  is 3 more than a multiple of 4. In every file a unit starts at each code accepted and nowhere
  else, and the units are the file from the first of them on (`Nal.ReadAll`).

Seven things in the code differ from what its comments or the RFCs would suggest. The model follows
the code, and says for each when exactly it goes well:

- A PONG throws away a fragmented message being assembled (src/websocket.c:1723). A whole message
  with pings and pongs between its fragments is delivered if and only if none of them is a pong;
  otherwise the connection is closed at the next fragment (`Messages.DeliveredIffNoPong`,
  `Messages.LostToPong`). Pongs outside messages are harmless (`Messages.IdlePongsTransparent`).
- The scanner of `read_nal` misses a start code after some longer runs of zeros; see
  `Nal.AcceptedIff` and `Nal.MissedCode`.
- After a picture that could not be saved, the loop of `check_dirty_pixels` goes on with the same
  client (src/websocket.c:2607-2610). It leaves the client exactly at the first turn that saves a
  picture, if the clock is not put back (`Display.Buddies.CheckDirtyPixels`,
  `Display.LeavesWhenSaved`). The checks the code makes itself are never what fails
  (`Display.Buddies.CheckOnce`).
- The emptiness test of the dirty-rectangle merge uses "and" (src/unixsocket.c:296-297). The merge
  never loses a pixel (`Pixels.MergeSound`), but it can be larger than need be
  (`Pixels.MergeTooLarge`); `Pixels.MergeLeastIff` says for which rectangles it is not.
- A frame that throttling drops is reported as sent (src/websocket.c:1366-1369), so the dirty
  rectangle is cleared (src/websocket.c:2628) and the update is lost. A pixel is right all the same
  exactly if the lost update is not over it, a later one is, or it had the colour already
  (`Screen.OneLost`, `Screen.LostPixel`).
- A read assigns the status, and so wipes SENDING (src/websocket.c:558-565). Only clients with
  SENDING are watched for writing (src/websocket.c:2382), and appending to a queue does not set it:
  `Outbound.WatchedIff` says that a queue is watched if and only if it was before, or is new.
- The viewer's script reads the four edges as an array of 16 numbers (web/webdisplay.js:28), which
  fails on messages shorter than 64 bytes. An update is drawn if and only if the name of its
  picture has at least 48 bytes (`Screen.AnnouncementRead`, `Screen.AnnouncementsRead`). With the
  default prefix (src/wdserver.h:58) and seconds of ten digits it has at least 50.

## Model

| member | source | states |
|---|---|---|
| Utf8.VerifyUtf8 | src/websocket.c:102-120 | the loop computes the run of the automaton; stopping at the reject state changes nothing |
| Utf8.AcceptedIffWellFormed | src/websocket.c:71-88 | the transition table accepts exactly the concatenations of the sequences RFC 3629, section 4, allows |
| Utf8.ValidateString | src/websocket.c:1793-1808 | 0 exactly on well-formed UTF-8, else 1 |
| Utf8.WellFormedConcat | src/websocket.c:71-88 | well-formed strings can be put together |
| Utf8.DecodeChar | src/websocket.c:126-135 | decoding one character byte by byte gives its code point and comes back to the start state, whatever the stored code point was |
| Utf8.DecodeEncodeAll | src/websocket.c:126-135 | folding the decoder over the encoding of any scalar values gives these values back |
| Utf8.EncodedAccepted | src/websocket.c:71-120 | the encoding of any scalar values is accepted |
| Utf8.WellFormedIffEncoded | src/websocket.c:71-135 | the accepted strings are exactly the encodings of sequences of Unicode scalar values |
| Sanitize.SanitizeUtf8 | src/websocket.c:140-179 | the loop ends although it steps back, writes len bytes and a NUL, and gives the reference result |
| Sanitize.Round | src/websocket.c:148-176 | one turn of the loop keeps the output position plus the pending bytes equal to the input position, and (len - i, k) decreases |
| Sanitize.SanitizedWellFormed | src/websocket.c:140-179 | the result is well-formed UTF-8 for every input |
| Sanitize.SanitizedIdentity | src/websocket.c:140-179 | a string is left unchanged if and only if it is well-formed |
| Sanitize.SanitizedIdempotent | src/websocket.c:140-179 | sanitising twice is sanitising once |
| Sanitize.SanitizedFront | src/websocket.c:140-179 | well-formed text in front is kept, and the rest is sanitised by itself |
| Sanitize.SanitizedBehind | src/websocket.c:150-161 | well-formed text behind whatever bytes is kept, because the index steps back |
| Sanitize.SanitizedCutShort | src/websocket.c:140-179 | a last character that is cut short becomes NULs, and the text in front of it is kept |
| Sanitize.SanitizedAt | src/websocket.c:140-179 | no byte below 0x80 is changed; a changed byte becomes a question mark, or a NUL among the last three |
| Sha1.SwapLoad | src/sha1.c:32-37 | blk0 on a little-endian host is the big-endian load of RFC 3174 |
| Sha1.BlkIsScheduled | src/sha1.c:38-39 | the 16-word ring gives schedule word t of the 80-word schedule |
| Sha1.MixIsF | src/sha1.c:42-46 | the rewritten choose and majority functions are those of RFC 3174 |
| Sha1.MacroIsRound | src/sha1.c:42-46 | a macro with renamed registers is one round of section 6.1 with shifted registers |
| Sha1.Expand | src/sha1.c:32-39 | the next schedule word is computed and left in its slot of the block, nothing else changes |
| Sha1.FiveRounds | src/sha1.c:71-150 | five macros bring the register names back and are five rounds |
| Sha1.SHA1Transform | src/sha1.c:51-163 | the new state is the compression of RFC 3174 of the old state and the old block; only the block is overwritten |
| Sha1Spec.ChainConcat | src/sha1.c:183-205 | blocks chained earlier need not be seen again: chaining a + b is chaining what is left of a, and b |
| Sha1Spec.WordBytesValue | src/sha1.c:222-225 | the bytes of a word are its digits in base 256, the first counting most |
| Sha1Spec.Rotations | src/sha1.c:28-28 | the three rotations rotate to the left |
| Sha1Example.SampleDigest | src/sha1.c:39-235 | the digest of the two-block message of RFC 6455, section 1.3, computed round by round |
| Sha1Stream.CountsAdd | src/sha1.c:188-191 | the two 32-bit words hold the bit count modulo 2^64, the carry included |
| Sha1Stream.WholeBlocks | src/sha1.c:195-197 | whole blocks of the caller's data are compressed in place, in order, each before it is overwritten |
| Sha1Stream.FullTestExact | src/sha1.c:192-200 | the 32-bit test for a full block is right exactly while buffered and new bytes add up to less than 2^32 |
| Sha1Stream.Context.Update | src/sha1.c:183-205 | the context then stands for the old message followed by the new bytes |
| Sha1Stream.Context.PadTo56 | src/sha1.c:218-220 | the padding loop ends, after exactly the zeros RFC 3174, section 4, asks for |
| Sha1Stream.Context.Final | src/sha1.c:207-235 | the digest is RFC 3174's of all the bytes absorbed |
| Sha1Stream.DigestOfPieces | src/sha1.c:183-235 | however a message is cut into updates, the digest is that of the whole message |
| Base64.Base64Encode | src/base64.c:40-81 | the RFC 4648, section 4, text, NUL-terminated, inside (size + 3) * 4 / 3 + 1 bytes for every size |
| Base64.UpperSymbols | src/base64.c:43-44 | symbols 0 to 25 are A to Z |
| Base64.LowerSymbols | src/base64.c:43-44 | symbols 26 to 51 are a to z |
| Base64.OtherSymbols | src/base64.c:43-44 | symbols 52 to 63 are the digits, + and / |
| Base64.SymbolOfIndex | sample/home/js/base64.js:83-117 | the script's index of a character is its place in that alphabet, the padding sign's is 64 |
| Base64.SextetsValue | src/base64.c:53-76 | the four digits of a group and its three bytes are the same number |
| Base64.BinDecode | sample/home/js/base64.js:83-117 | the loop computes the group-wise decoding of the filtered input |
| Base64.DecodeEncoded | src/base64.c:40-81 | decoding an encoding gives the bytes back |
| Base64.EncodeDecode | sample/home/js/base64.js:83-117 | also through the filter of binDecode |
| Handshake.Sha1Digest | src/websocket.c:1448-1456 | the digest of the string |
| Handshake.AcceptKey | src/websocket.c:1459-1486 | the 28-character accept value of RFC 6455, section 4.2.2: base64 of SHA-1 of the key followed by the GUID |
| Handshake.AcceptValueDecodes | src/websocket.c:1459-1486 | the viewer gets the digest back out of the header |
| Examples.SampleAccepted | src/websocket.c:1459-1486 | for the key of RFC 6455, section 1.3, the value is the one given there |
| Headers.LinesJoin | src/websocket.c:1119-1124 | the lines of a text put together again are the text, and no line holds a line end |
| Headers.OneLine | src/websocket.c:1119-1143 | one turn: a line end is found at or before the empty line, and the verdict on the rest is kept |
| HeaderLine.ParseRequest | src/websocket.c:962-1005 | a path is found exactly on lines that start with the method and have a protocol behind at least one byte of path, and it is the bytes between |
| HeaderLine.StepBack | src/websocket.c:1087-1089 | the white space in front of the colon is skipped, all of it and nothing else |
| HeaderLine.SetHeaderFields | src/websocket.c:1066-1105 | says of every line whether it is accepted, and its path, or its name and value |
| HeaderLine.ReadOneWay | src/websocket.c:1066-1105 | there is only one way to read a line |
| HeaderLine.EmptyRefused | src/websocket.c:1066-1105 | an empty line is refused |
| HeaderLine.RequestRead | src/websocket.c:962-1005 | a GET line, in capitals or not and with either protocol, with a path that starts with a slash and has no blank in it is read as that path |
| HeaderLine.FieldRead | src/websocket.c:1066-1105 | a name, a colon, a blank and a value are read as that name and that value |
| HeaderLine.FieldClean | src/websocket.c:1066-1105 | no name holds a blank, a tab or a colon, and no value starts with white space |
| Headers.ParseHeaders | src/websocket.c:1112-1146 | for every buffer with an empty line: ends, always has a line end where it uses one, and returns 0 exactly when the string ends at its first empty line, that is not at offset 0, and every line is accepted |
| Wire.LengthFieldDecodes | src/websocket.c:1891-1928 | the 7-, 16- and 64-bit lengths the server writes are undone by its own decoders |
| Wire.FieldValues | src/websocket.h:116-122 | the header fields are the numbers RFC 6455, section 5.2, gives them |
| Wire.EncodedBytes | src/websocket.c:1327-1369 | an encoded frame is byte by byte the one of RFC 6455, section 5.2 |
| Frames.LengthMinimal | src/websocket.c:1335-1343 | no sender could have used a shorter length form for the payload |
| Wire.PeerTakesFrame | src/websocket.c:1327-1369 | a peer takes exactly the frame that was written, and no more |
| Wire.PeerWaits | src/websocket.c:1327-1369 | and takes nothing before its last byte is there |
| Wire.PeerRecovers | src/websocket.c:1327-1369 | from every prefix of a stream of frames a peer recovers exactly the frames that lie in it whole |
| Wire.PeerReadsAll | src/websocket.c:1327-1369 | from the whole stream it recovers every frame |
| Outbound.ChopNchars | src/websocket.c:313-324 | what is left of the buffer is its old tail; chopping nothing reports 0 |
| Outbound.SendingClient.ClearQueue | src/websocket.c:420-440 | no queue is left; draining ends throttling |
| Outbound.SendingClient.RespondData | src/websocket.c:1226-1239 | what the kernel does not take is queued; what it took and what is queued is what was accepted |
| Outbound.SendingClient.RespondCache | src/websocket.c:1246-1265 | the queue loses exactly what the kernel took |
| Outbound.SendingClient.ReallocSendBuf | src/websocket.c:1271-1294 | the buffer goes behind the queue; a queue of the threshold or more is throttled |
| Outbound.SendingClient.Respond | src/websocket.c:1300-1320 | a buffer is accepted whole or, when throttled, dropped whole; the new queue and status in every case |
| Outbound.BuildFrame | src/websocket.c:1331-1366 | the header bytes filled in one by one, and the payload, are the encoded frame, and that is the frame of RFC 6455, section 5.2, byte by byte |
| Outbound.SendingClient.SendFrame | src/websocket.c:1327-1369 | one call hands over one whole frame |
| Outbound.SendingClient.HandleWrites | src/websocket.c:2242-2258 | a successful send shortens the queue |
| Outbound.StaysLimited | src/websocket.c:1271-1320 | every step keeps the queue within max(L, threshold - 1), plus L when throttled, plus L for each time throttling was wiped, for every status; a broken pipe counts as one more wipe |
| Outbound.WipedLimited | src/websocket.c:558-565 | a read that assigns the status counts as one more wipe |
| Outbound.QueueBounded | src/websocket.c:1271-1320 | the bound in numbers |
| Outbound.ThrottlingEnds | src/websocket.c:420-440 | throttling ends only when the queue drains, or with the connection |
| Outbound.GivenUp | src/websocket.c:1226-1320 | a client is given up when the viewer is found gone, and sending gives it up for no other reason |
| Outbound.WatchedIff | src/websocket.c:1149-1163 | a queue that stays is watched for writing if and only if it was before, or is new |
| Outbound.SendingClient.Run | src/websocket.c:1300-1369 | over every run of frames, writable sockets and reads: sent plus queued bytes are the accepted frames, these are a subsequence of those asked for, a peer recovers those that lie whole in the bytes sent; the queue stays within the bound for at most as many wipes as there are reads and broken pipes; all frames are taken if the viewer stays and less than the threshold is asked for |
| Outbound.SendingClient.SetStatus | src/websocket.c:558-565 | a read assigns the status, and wipes what sending noted in it; the bytes are conserved |
| Outbound.SendingClient.Drain | src/websocket.c:1246-1265 | draining takes at most as many successful sends as bytes are queued |
| Receive.UnmaskTwice | src/websocket.c:1683-1692 | masking is its own inverse |
| Receive.ScanStable | src/websocket.c:1956-2016 | what the front of the bytes decides does not depend on what follows |
| Receive.FeedConcat | src/websocket.c:2086-2097 | parsing a + b is parsing a, then b |
| Receive.ChunkIndependence | src/websocket.c:2086-2097 | parsing piece by piece, in any pieces, is parsing the whole |
| Frames.ScanReadsFrame | src/websocket.c:1891-1948 | the parser reads back any frame a sender can write, in each length form |
| Frames.ScanReadsOnlyFrames | src/websocket.c:1891-1948 | and whatever it reads is, byte for byte, a frame some sender can write |
| Frames.OnWireBytes | src/websocket.c:1891-1948 | the frames the parser reads are, byte by byte, the masked frames of RFC 6455, section 5.2, in each length form |
| Examples.HelloDelivered | src/websocket.c:1956-2097 | the masked text frame of RFC 6455, section 5.7, delivers its text |
| Examples.HelloAnswered | src/websocket.c:1728-1787 | a ping with that payload is answered by the pong frame with it |
| ReceiveMachine.UnmaskPayload | src/websocket.c:1683-1692 | in place, the bytes from offset on are unmasked with the key from index 0, the others kept |
| ReceiveMachine.WSFrame.SetPayloadlen | src/websocket.c:1908-1928 | the wire length, stored in an int |
| ReceiveMachine.WSFrame.SetMaskingKey | src/websocket.c:1931-1948 | the last four bytes of the header |
| ReceiveMachine.RecvSocket.Recv | src/websocket.c:1170-1183 | hands out the next bytes of the stream, from 1 to as many as asked for, or none |
| ReceiveMachine.ReceivingClient.ReadHeader | src/websocket.c:1622-1638 | the bytes read are appended to the header; EAGAIN leaves the state READING |
| ReceiveMachine.ReceivingClient.FillHeader | src/websocket.c:1968-2003 | one of the three reads of a header: short reads leave the state READING |
| ReceiveMachine.ReceivingClient.SetFrontHeaderFields | src/websocket.c:1664-1680 | a frame without mask or with reserved bits is refused |
| ReceiveMachine.ReceivingClient.GetFrmHeader | src/websocket.c:1956-2016 | what the header bytes read so far amount to: refused, incomplete, too large, or taken apart |
| ReceiveMachine.WSMessage.Alloc | src/websocket.c:2023-2040 | there is room for the whole payload, and the message keeps its bytes |
| ReceiveMachine.WSMessage.Read | src/websocket.c:1643-1659 | the bytes read follow those that are there; payloadsz and buflen grow by them |
| ReceiveMachine.WSMessage.TakeFragment | src/websocket.c:1823-1834 | the current payload becomes, unmasked, the end of the message |
| ReceiveMachine.WSMessage.TakePing | src/websocket.c:1760-1781 | the ping's payload is unmasked and cut off; the fragments before it stay |
| ReceiveMachine.ReceivingClient.HandlePong | src/websocket.c:1713-1724 | what the specification says of a pong |
| ReceiveMachine.ReceivingClient.HandlePing | src/websocket.c:1728-1787 | what the specification says of a ping |
| ReceiveMachine.ReceivingClient.CompleteMessage | src/websocket.c:1835-1850 | a text that is not UTF-8 closes the connection; else the message is delivered or sent back unchanged |
| ReceiveMachine.ReceivingClient.HandleTextBin | src/websocket.c:1811-1851 | what the specification says of a data frame |
| ReceiveMachine.ReceivingClient.ManagePayloadOpcode | src/websocket.c:1854-1888 | every opcode does to the machine what the specification says |
| ReceiveMachine.ReceivingClient.GetFrmPayload | src/websocket.c:2047-2084 | the payload is read, and once it is whole the frame is handled and freed |
| ReceiveMachine.ReceivingClient.GetMessage | src/websocket.c:2086-2097 | keeps the state equal, for everything that can follow, to the parser's on the bytes taken, and takes bytes whenever there are any |
| ReceiveMachine.ReceivingClient.Run | src/websocket.c:1956-2097 | after any number of calls events, message and kept bytes are the parser's result on the bytes taken; with enough calls and no empty reads everything is taken or the connection closed |
| ReceiveMachine.HeaderStep | src/websocket.c:1956-2016 | more header bytes: the parser agrees in all four cases |
| ReceiveMachine.PayloadStep | src/websocket.c:2047-2084 | more payload bytes: the parser waits, or handles the same frame |
| ReceiveMachine.Waits | src/websocket.c:1956-2084 | a beginning of a header, or a header with a beginning of its payload, is kept whole |
| Server.Serve | src/websocket.c:1956-2097 | for any stream and any schedule of reads the events are those of the bytes taken, every message delivered is assembled from frames of its own, in order, and with enough calls and no empty reads everything is taken or the connection closed |
| Server.ServeFrames | src/websocket.c:1956-2097 | a viewer's whole frames, in whatever pieces they arrive, have the effect of the handlers folded over them |
| Server.Echo | src/websocket.c:1300-1369 | a viewer of an echoing server reads a subsequence of the messages otherwise delivered, each whole; if it stays and less than the threshold is asked for, all their bytes are sent or waiting, in order, and it reads all of them once nothing waits |
| Messages.FeedIsFold | src/websocket.c:2086-2097 | on a stream of written frames the parser is the fold of the handlers |
| Messages.FeedByFrames | src/websocket.c:2086-2097 | on any bytes it is that fold over the frames that are whole, plus at most a close frame |
| Messages.PingsTransparent | src/websocket.c:1728-1787 | taking the pings out of a stream changes no message, no verdict and nothing collected; the pongs are the pings' own payloads, in order |
| Messages.OpenIff | src/websocket.c:1854-1888 | a stream leaves the connection open if and only if every frame may follow those before it, by opcode, fin bit, size and text; what is being collected is then read off its frames |
| Messages.KeptOpen | src/websocket.c:1696-1851 | what a frame that may follow makes the server do |
| Messages.ClosedBy | src/websocket.c:1696-1888 | the first frame that may not follow closes the connection, with the last words and codes given for it, and nothing behind it counts |
| Messages.CloseAnswered | src/websocket.c:1696-1700 | a close frame on an open connection is answered by an empty close frame, and nothing behind it counts |
| Messages.RefusedHeader | src/websocket.c:1665-1680 | a header without mask or with a reserved bit closes the connection without a word |
| Messages.TooLargeClosed | src/websocket.c:2007-2010 | a frame over the limit closes it with code 1009 as soon as its header is there |
| Messages.DeliveredIffNoPong | src/websocket.c:1713-1724 | a whole message with final pings and pongs between its fragments is delivered if and only if none is a pong; otherwise the connection is closed and nothing is delivered |
| Messages.OnePongLosesMessage | src/websocket.c:1713-1724 | one pong between two fragments loses a message that is delivered without it |
| Messages.LostToPong | src/websocket.c:1713-1724 | the frames of such a stream |
| Messages.IdlePongsTransparent | src/websocket.c:1713-1724 | pongs that arrive while nothing is collected can be taken out of a stream |
| Messages.PongTransparentIff | src/websocket.c:1713-1724 | at the end of any stream a pong changes nothing if and only if nothing is being collected there |
| Messages.Reassembly | src/websocket.c:1811-1851 | every message delivered is the unmasked data of consecutive frames of its own forming one whole message, in order, and every text is well-formed |
| Messages.StreamReassembly | src/websocket.c:1811-1851 | the same for every stream of bytes |
| Messages.BegunCollects | src/websocket.c:1811-1834 | the beginning of a message leaves exactly its data collected |
| Messages.WholeDelivered | src/websocket.c:1811-1851 | a whole message that finds none under way is delivered with exactly its data |
| Messages.EchoFaithful | src/websocket.c:1842-1849 | in echo mode exactly the messages otherwise delivered are sent back, unchanged |
| Messages.EchoStream | src/websocket.c:1842-1849 | the same on every stream of bytes |
| Messages.WrittenInRange | src/websocket.c:2086-2097 | streams of written frames with totals below 2^31 are in range |
| Messages.EchoReachesViewer | src/websocket.c:1327-1369 | the encoding of an echoing server's replies is read back as the messages otherwise delivered, with the pongs and the close frame; sending is not part of the statement |
| Pixels.Expand565Lossless | src/unixsocket.c:281-287 | the top 5, 6 and 5 bits of an expanded pixel are the source pixel |
| Pixels.Expand565Injective | src/unixsocket.c:281-287 | different source pixels stay different |
| Pixels.Expand888Channels | src/unixsocket.c:270-277 | red, green and blue of a 32-bit pixel keep their places |
| Pixels.ExpandBytes | src/unixsocket.c:268-287 | what the bytes of a row mean, for both pixel types, low bits included |
| Pixels.RowPixelBytes | src/pixelencoder.c:39-142 | each pixel of a picture row is three bytes, red, green and blue |
| Pixels.MergeSound | src/unixsocket.c:295-305 | the merge holds every pixel of both rectangles, degenerate ones included, and stays inside the buffer |
| Pixels.MergeLeast | src/unixsocket.c:295-305 | of two rectangles with pixels it is the smallest that does |
| Pixels.MergeLeastIff | src/unixsocket.c:295-305 | for all rectangles: it has no pixel too many if and only if a test of the edges says so |
| Pixels.MergeTooLarge | src/unixsocket.c:295-305 | a rectangle empty in one direction with which it has |
| Pixels.DrawAt | src/unixsocket.c:258-292 | what drawing a picture into a rectangle means, pixel by pixel |
| Pixels.DrawRow | src/unixsocket.c:260-292 | a row of the rectangle is one stretch of the buffer, and no stretch touches another row |
| Pixels.CutOutDrawn | src/websocket.c:2607-2628 | drawing a cut-out brings the canvas up to date in the rectangle and nowhere else |
| ShadowBuffer.USClient.constructor | src/unixsocket.c:160-181 | the buffer has three bytes for each pixel, and nothing is dirty |
| ShadowBuffer.USClient.ImageBytes | src/unixsocket.c:268-287 | each pixel of the image is three bytes of the buffer, red, green and blue |
| ShadowBuffer.USClient.BlitRow | src/unixsocket.c:263-288 | the inner loop writes exactly the row's pixels; every other byte is unchanged |
| ShadowBuffer.USClient.Blit | src/unixsocket.c:258-292 | the nested loops draw exactly the update into the image, inside the buffer |
| ShadowBuffer.USClient.OnClientData | src/unixsocket.c:229-316 | image, dirty rectangle and result for every kind of input |
| ShadowBuffer.USClient.CheckDirtyPixels | src/unixsocket.c:318-336 | 1 exactly when there are dirty pixels and the flush is due: in another second, or 50000 microseconds later |
| ShadowBuffer.USClient.ResetDirtyPixels | src/unixsocket.c:338-345 | nothing is dirty |
| ShadowBuffer.USClient.SaveDirtyPixelsToPng | src/pixelencoder.c:39-142 | -1 exactly for a rectangle outside the buffer, -2 exactly for an empty one inside it; else, unless files or libpng fail, the row slices are inside the buffer and exactly the dirty pixels |
| Display.Buddies.OnData | src/unixsocket.c:229-316 | coherence is kept, for the new pixels too |
| Display.Buddies.CheckOnce | src/websocket.c:2593-2629 | one turn: coherence is kept; a flush that is due never gets -1 or -2 and either sends one update and clears the rectangle, or changes nothing; one that is not due changes nothing |
| Display.Buddies.CheckDirtyPixels | src/websocket.c:2584-2633 | the loop at one viewer leaves it exactly at the first turn that does not spin; until then nothing is sent and the rectangle stays |
| Display.LeavesWhenSaved | src/websocket.c:2593-2611 | with a clock that is not put back that is the first turn in which the picture is saved |
| Display.FlushRate | src/unixsocket.c:318-336 | within one second of the clock there are at most twenty flushes |
| Display.Buddies.FlushedAgree | src/websocket.c:2628-2628 | after a flush every pixel received agrees |
| Display.Buddies.Run | src/websocket.c:2584-2633 | coherence over every run of updates and flushes, for the canvas that all announced updates draw |
| Screen.EdgesRead | src/websocket.c:2274-2286 | the four edges packed in host order are read back from the front of the message, and the name from behind them |
| Screen.AnnouncementBytes | src/websocket.c:2490-2520 | an announcement is a binary message of four edges of four bytes each, the first counting least, and the name |
| Screen.AnnouncementRead | web/webdisplay.js:24-42 | an announced update is drawn exactly as announced if its name has at least 48 bytes, otherwise not at all |
| Screen.AnnouncementsRead | src/websocket.c:2490-2520 | of the announcements read all updates are drawn if and only if no name is too short; in any case some of them, in order |
| Screen.FewerSeen | web/webdisplay.js:24-42 | some of the messages, in order, make the script draw some of what all of them would, in order |
| Screen.ShownColour | web/webdisplay.js:35-37 | a pixel of the canvas has the colour the last update over it gave it, or its first one |
| Screen.DrawnOver | web/webdisplay.js:35-37 | later updates hide the earlier ones where they reach, and leave the rest as it was |
| Screen.OneLost | src/websocket.c:2612-2628 | after one lost update a pixel is right if and only if the update is not over it, a later one is, or it had the colour already |
| Screen.LostPixel | src/websocket.c:2612-2628 | a pixel that such a loss leaves wrong |
| Screen.AgreeIff | src/websocket.c:2612-2628 | with nothing dirty, a viewer who has drawn some of the updates sees every received pixel right if and only if those give it the colour all would |
| Screen.Show | src/websocket.c:2584-2633 | over any run of sends, writable sockets and reads, the updates read from the bytes sent are a subsequence of those announced, with that condition for the pixels; if the viewer stays, less than the threshold is asked for and nothing waits, they are all of them exactly if no name is too short, and then every received pixel is right after a flush |
| Nal.NextCodeIsCode | producer/nalstreamer.c:53-66 | where the scanner stops, the last four bytes are 00 00 00 01 |
| Nal.NextCodeCounts | producer/nalstreamer.c:53-66 | it stops at the first place where its count is full |
| Nal.AcceptedIff | producer/nalstreamer.c:53-66 | after a byte that is not zero, m zeros and a 01 are accepted if and only if m is 3 more than a multiple of 4 |
| Nal.MissedCode | producer/nalstreamer.c:53-66 | an input with a start code that is missed |
| Nal.UnitEnds | producer/nalstreamer.c:62-68 | behind a unit lies the next code or the end of the file, so the next call finds it at once |
| Nal.UnitsPartition | producer/nalstreamer.c:30-92 | the units put together are the file from its first code on |
| Nal.UnitsStart | producer/nalstreamer.c:69-86 | each unit starts with its code |
| Nal.ReadNal | producer/nalstreamer.c:30-92 | the next unit is in the buffer and the file stands at its end |
| Nal.ReadAll | producer/nalstreamer.c:30-92 | repeated calls give the units one by one, until the file is used up; together they are the file from its first code on, and a unit starts at every code accepted and nowhere else |
| Nal.CountOn | producer/nalstreamer.c:53-66 | behind an accepted code counting starts afresh |
| Nal.StartsWhereFull | producer/nalstreamer.c:53-92 | in a file that starts with a code the units start exactly where the count of the file is full |
| Nal.CodesAreStarts | producer/nalstreamer.c:53-92 | in any file the codes accepted are exactly those the units start with |

## Left out

- ReceiveMachine.ReceivingClient.Run: end of file and read errors are left out (EOF inside a payload is overwritten by WS_READING, src/websocket.c:2072-2075), and so are announced lengths and message totals of 2^31 and more, which the int fields cannot hold.
- ReceiveMachine.ReceivingClient.ReadHeader: end of file and read errors are left out.
- ReceiveMachine.ReceivingClient.FillHeader: end of file and read errors are left out.
- ReceiveMachine.ReceivingClient.GetFrmHeader: end of file and read errors are left out.
- ReceiveMachine.ReceivingClient.GetFrmPayload: end of file and read errors are left out.
- ReceiveMachine.RecvSocket.Recv: end of file and read errors are left out.
- ReceiveMachine.WSMessage.Read: end of file and read errors are left out.
- Server.Serve: the same domain; in echo mode the messages sent back are the subject of Server.Echo.
- ReceiveMachine.ReceivingClient.GetMessage: of the status only OK, READING and ERR with CLOSE are kept; what sending a pong or an echo does to it is in the model of the sending side.
- ReceiveMachine.WSMessage.Alloc: running out of memory is left out; realloc to zero bytes frees the block, as in the GNU C library.
- Outbound.SendingClient.Run: a send gives some bytes, EAGAIN or EPIPE; a send result of 0 or another errno discards the queue (src/websocket.c:1252-1260) and is left out.
- Outbound.SendingClient.RespondData: errno values other than EPIPE and EAGAIN are left out.
- Outbound.SendingClient.RespondCache: send results of 0 and errno values other than EPIPE and EAGAIN are left out.
- Server.Echo: which frames throttling drops when more than the threshold is asked for depends on the run; the contract says only that they are dropped whole.
- Outbound.SendingClient.SendFrame: payloads whose frame does not fit an int are left out.
- Outbound.Socket.Send: sending an empty buffer counts as a success.
- Sha1.SHA1Transform: the unrolled groups of five rounds are a loop; the wiping of local variables has no effect and is not modelled. Only the little-endian build is modelled.
- Sha1Stream.Context.Update: the bytes already buffered and the new length add up to less than 2^32; Sha1Stream.FullTestExact shows that the test for a full block goes wrong on everything else.
- Sha1Stream.DigestOfPieces: the same for every piece.
- HeaderLine.SetHeaderFields: the fields of the header structure, the case-insensitive names and the upper-casing of method and protocol are left out; isspace is that of the C locale.
- ShadowBuffer.USClient.OnClientData: rectangles lie inside the buffer and are not turned around, rows are read completely, and a row fits the buffer allocated for it.
- ShadowBuffer.USClient.constructor: the pixel types us_on_connected refuses, and short reads there, are left out.
- ShadowBuffer.USClient.SaveDirtyPixelsToPng: a picture is the exact pixels of its row slices; failures of files and of libpng are a parameter.
- Display.Buddies.Run: one viewer; the canvas is that of all announced updates, what the viewer gets of them is the subject of Screen.Show.
- Screen.Show: the viewer gets under each name the picture saved under it, loads pictures in the order of the messages, and has the byte order of the server. In builds where PNG_VIA_HTTP is 0 the bytes behind the edges are the picture itself (sample/home/js/webdisplay.js:24-42).
- Display.Buddies.CheckDirtyPixels: the walk over the list of viewers is left out.
- Nal.ReadNal: the buffer holds the unit and the four bytes of the next code; when it grows, the C code reallocates its local pointer only.
- Nal.ReadAll: the same for every unit of the file.
- Base64.BinDecode: codes are 32-bit words, as the bit operations of the script make them.
- The select loop, accepting and closing connections, launching local clients, the client list.
- TLS, getaddrinfo, fork and exec, signals, log files, options and configuration.
- onmessage's own parsing of events, pack_uint32 with conversion, unpack_uint32, escape_http_request.
- The pages, scripts and styles of the browser side, except binDecode and the drawing of updates.

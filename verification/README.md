# handshake-cpp, modelled and verified

A Dafny model of the RFC 6455 WebSocket library handshake-cpp, with proofs of what its parts promise
and of what a whole run of its server does. Verify it with `dafny verify dfyconfig.toml`.

| file | models |
|---|---|
| `Bits.dfy`, `Bytes.dfy` | bitwise operations on unsigned integers, octets, network byte order |
| `Frames.dfy`, `FrameLaws.dfy` | the frame codec, and the wire format it accepts |
| `Fips180.dfy`, `Sha1.dfy`, `Sha1Laws.dfy` | SHA-1 as functions, the streaming hash object, and FIPS 180-4 as relations on bits |
| `Base64.dfy` | the encoder, and a decoder after section 4 of RFC 4648 |
| `Http.dfy`, `HttpLaws.dfy` | the request-head parser, and rendering as its inverse |
| `Handshake.dfy`, `HandshakeLaws.dfy` | the opening handshake: read loop, upgrade check, answer, client request |
| `UpgradeLaws.dfy` | when a handshake opens a connection, and when it does not |
| `Connection.dfy`, `ConnectionLaws.dfy`, `MessageLaws.dfy` | one connection on its own: the reference machine and its laws |
| `CutLaws.dfy` | which cuttings of a byte stream into receives a connection reads as the frames that were sent |
| `OctetLaws.dfy` | the codec and one receive of a connection told octet by octet, in numbers |
| `World.dfy`, `Scan.dfy` | many connections on reused descriptors, and one pass of the select loop |
| `PassLaws.dfy`, `RunLaws.dfy` | what rounds owe to whoever waits, and whole runs |
| `Server.dfy` | the server object: its tables and the loop that updates them |

## How it is built

Code that changes state step by step is a method or a class, proved against a specification function;
the laws are lemmas about those functions. Four results carry the rest.

* **The codec is the wire format.** `ParseIffWireFormat` says which buffers parse, to what, and how many
  bytes are used, by quantifying over every layout a sender may choose: reserved bits, length form, key.
  Round trips, masking, re-encoding and prefix behaviour follow from it. `OctetLaws.ParseInOctets`,
  `EncodeInOctets`, `RefusedInOctets` and `AnsweredInOctets` say the same once more in octets and numbers.
* **The hash object refines the standard.** After any list of updates the object is the fold of the
  compression function over the whole blocks so far (`Sha1.Sha1.Valid`), and one `Finalize` is the digest
  of the concatenation. `Sha1Laws.DigestIsBook` says that this digest is the one value FIPS 180-4 allows,
  the standard being put as relations between single bits and numbers.
* **The server is the sum of its connections.** `Server.WebSocketServer.Valid` reads the five tables as a
  map from descriptors to states of a one-connection reference machine; every method keeps that reading,
  `Run` fixes the steps of a whole run, and `World.Isolation` says that each connection's sends and
  callbacks are those of the reference machine on that connection's own inputs alone. Order of callbacks,
  fragment reassembly and payload limits are proved of the reference machine, and so hold in every run.
* **Nobody who waits is passed over.** Every round brings every open connection exactly what waits at its
  descriptor and accepts the client that waits (`PassLaws.EveryRoundServes`, carried by `Run`), and no
  connection loses its descriptor before its life ends (`PassLaws.NobodyLostInRun`). So in any run a client
  is followed from `accept` to the echo of its first message (`RunLaws.NewClientIsEchoed`).

The operating system appears as input. A round is a map from descriptors to what is waiting there: the
descriptor `accept` would hand out, what successive `recv` calls return, whether `send` succeeds. The two
facts about the kernel the model uses are in `Scan.AcceptCall` (`accept` never returns an open descriptor)
and `Handshake.Recv` (`recv` never returns more than it was asked for). What the server does is a ghost
trace of sends and callbacks, each tagged with the connection it belongs to.

## What the code does that its documentation does not say

* The repository's README promises fragmented frames "with proper reassembly". `handle_frame` takes one
  frame from a receive and drops the rest. So a stream of frames is read as sent exactly when it arrives
  cut at the frame boundaries and no frame before the last ends the connection (`CutLaws.ReadAsBuilt`; for
  a masked stream in masked receives `CutLaws.ReadAsMasked`; for any layouts `CutLaws.ReadAsLaidOut`), and then fragments are
  reassembled (`CutLaws.HandledAsSent`, `MessageLaws.FragmentedMessage`). A last fragment that comes in the
  receive of the first is lost (`MessageLaws.CoalescedFragmentsAreLost`), and a frame of at most
  65536 bytes that needs two receives is answered with 1002 (`MessageLaws.LargeFrameAnswer`).
* It lists ping/pong support; an incoming PONG has no branch and is answered with 1002 like an unknown
  opcode (`MessageLaws.PongIsRefused`).
* It promises the complete handshake; the server's own copy of it does not look at the Upgrade, Connection
  and Sec-WebSocket-Version headers. It answers as the library's check would have it exactly when that
  check accepts (`HandshakeLaws.SameAnswerExactly`), and upgrades a request with no header but the key
  (`HandshakeLaws.KeyAloneIsEnough`).
* A request head may be refused for how it was cut: exactly when it ends after 30721 bytes in a stream
  longer than 32768 (`HandshakeLaws.SomeCuttingIsRefused`).
* An oversize declared length is not "just reserved": the payload is that many zero bytes, and at most
  fourteen received bytes make a message of any length above 65536 that `max_payload_` allows
  (`MessageLaws.ZerosDelivered`). A negative limit, converted to an unsigned size, allows every
  length below 2 to the 63. The limits under which no payload is longer than its receive are exactly 0 to
  65536 (`MessageLaws.LimitsThatHold`).
* A reassembled message has no limit of its own, so an echo may be larger than the parser takes: it reads
  back as sent exactly when it is at most 65536 bytes, or all zero (`MessageLaws.EchoReadsBack`).

## Model

| member | source | states |
|---|---|---|
| Frames.ReadHeader | src/frame.cpp:9-35 | reads FIN, opcode, length in any of its three forms and the optional key, or reports that the header is not all there |
| Frames.CopyPayload | src/frame.cpp:51-60 | the payload loop yields the bytes XORed with the repeated key, or as they are when there is no key |
| Frames.ParseFrame | src/frame.cpp:7-63 | the parser succeeds and fails where its specification does, with the same frame and count of used bytes, oversize branch included |
| Frames.BuildFrame | src/frame.cpp:65-91 | the pushed bytes are the frame's encoding, for every payload length |
| Frames.BuildText | src/frame.cpp:93-100 | a text frame with the message as payload and the FIN asked for |
| Frames.BuildBinary | src/frame.cpp:102-109 | a binary frame likewise |
| Frames.BuildContinuation | src/frame.cpp:111-118 | a continuation frame likewise |
| Frames.BuildClose | src/frame.cpp:120-130 | a final close frame whose payload is the code in network order, then the reason |
| Frames.BuildPong | src/frame.cpp:132-139 | a final pong frame with the ping's payload |
| OctetLaws.ParseInOctets | src/frame.cpp:7-63 | which buffers parse, how many bytes are used, FIN, opcode and every payload byte, the i-th XORed with key byte i mod 4, in numbers alone and oversize branch included |
| OctetLaws.EncodeInOctets | src/frame.cpp:65-91 | first and second byte, the length in network order, and the payload of every built frame, in numbers alone |
| FrameLaws.MaskTwice | src/frame.cpp:52-56 | unmasking undoes masking with the same key |
| Bits.XorBit | src/frame.cpp:55 | exclusive or adds bit by bit without carry |
| FrameLaws.DecodeHead | src/frame.cpp:9-35 | every head a sender may lay out reads back field by field, whatever follows |
| FrameLaws.HeadOf | src/frame.cpp:9-35 | every complete header is the head of some layout, with an opcode below 16 and a length its form can hold |
| FrameLaws.ParseRendered | src/frame.cpp:9-62 | any layout of a frame of at most 65536 bytes parses to that frame and uses exactly its own bytes |
| FrameLaws.ParseOnlyRendered | src/frame.cpp:9-62 | whatever parses to such a frame begins with a layout of it, `used` bytes long |
| FrameLaws.ParseIffWireFormat | src/frame.cpp:9-62 | a buffer parses to a frame of at most 65536 bytes using `used` bytes if and only if those bytes are some layout of the frame |
| FrameLaws.ParseOfPrefix | src/frame.cpp:9-62 | the result depends only on the first `used` bytes, and every shorter prefix is rejected |
| FrameLaws.ParseEncoded | src/frame.cpp:7-91 | what the builder emits parses back to the frame, with any bytes behind it |
| FrameLaws.PrefixOfRendered | src/frame.cpp:9-48 | a frame cut short, in any layout, is rejected, or, above 65536 bytes once its header is there, reported with a zero payload of the declared length |
| FrameLaws.PrefixOfEncoding | src/frame.cpp:9-48 | the same for what the builder emits, whose oversize header is ten bytes |
| FrameLaws.MaskedParsesAlike | src/frame.cpp:12-62 | setting the mask bit, inserting a key and XORing the payload of a built frame changes nothing in what is parsed except four more used bytes |
| FrameLaws.ReencodeIsShortest | src/frame.cpp:7-91 | re-encoding a parsed frame is never longer than what was used and parses to the same frame |
| FrameLaws.StreamRoundTrip | src/frame.cpp:7-91 | parsing and advancing over concatenated encodings gives back the list of frames and leaves no byte |
| FrameLaws.PrefixFree | src/frame.cpp:65-91 | no encoding is a prefix of another frame's, for all lengths below 2 to the 64, those the parser does not reproduce included |
| FrameLaws.EncodeAllInjective | src/frame.cpp:65-91 | equal concatenations of encodings come from equal lists of frames |
| Bits.ChooseOrXor | include/webserver/sha1.hpp:71-75 | the two terms of the first round function can be joined by inclusive or exclusive or alike, at every width |
| Bits.MajorityOrXor | include/webserver/sha1.hpp:81-85 | the same for the three terms of the majority function |
| Sha1.OrFormAgrees | include/webserver/sha1.hpp:71-90 | the source's round functions are Ch, Parity and Maj of FIPS 180-4 section 4.1.1 |
| Sha1.SumWraps | include/webserver/sha1.hpp:91 | 32-bit wrap-around after each addition equals the sum modulo 2 to the 32 |
| Fips180.PaddingIsSmallest | include/webserver/sha1.hpp:28-30 | the padding is the smallest that FIPS 180-4 section 5.1.1 allows |
| Fips180.LengthFieldIsExact | include/webserver/sha1.hpp:31 | for messages below 2 to the 61 bytes the length field is the bit length |
| Sha1.FillSchedule | include/webserver/sha1.hpp:59-66 | the 80 words filled in place are W_0 to W_79 of FIPS 180-4 section 6.1.2 |
| Sha1.RoundChoice | include/webserver/sha1.hpp:70-90 | round function value and constant are those of the standard for that round; the constant is the integer part of 2 to the 30 times the square root of 2, 3, 5 or 10 |
| Sha1.Rotate | include/webserver/sha1.hpp:91-96 | one pass of the loop is step 3 of FIPS 180-4 section 6.1.2 |
| Sha1.Sha1.Block | include/webserver/sha1.hpp:57-103 | the hash words become the compression of the block |
| Sha1.Sha1.Update | include/webserver/sha1.hpp:18-24 | the buffer keeps the last total mod 64 bytes, the hash words are the fold over all earlier blocks, the length is counted modulo 2 to the 64 |
| Sha1.Sha1.Finalize | include/webserver/sha1.hpp:26-38 | returns the FIPS 180-4 digest of everything absorbed |
| Sha1.PaddedTail | include/webserver/sha1.hpp:28-31 | the padding loops append a one bit, the zeros of section 5.1.1 and the length |
| Sha1.Sha1Bytes | include/webserver/sha1.hpp:105-108 | the one-call hash is the digest |
| Sha1.DigestOfChunks | include/webserver/sha1.hpp:18-38 | for every list of update chunks the result is the digest of their concatenation |
| Sha1Laws.RoundIsStep | include/webserver/sha1.hpp:67-97 | a round is the one step of section 6.1.2: words turned by 5 and by 30 bit by bit, choose, parity or majority bit by bit, a constant that is a cut-off square root, one sum modulo 2 to the 32 |
| Sha1Laws.CompressIsBook | include/webserver/sha1.hpp:57-103 | a hash value follows a block in the sense of section 6.1.2 if and only if it is the compression |
| Sha1Laws.DigestIsBook | include/webserver/sha1.hpp:14-108 | 20 bytes are the digest of a message if and only if some padding and some chain of hash values of FIPS 180-4 end in them |
| Base64.Base64Encode | include/webserver/base64.hpp:9-41 | the loop and its two tails emit the RFC 4648 encoding |
| Base64.AlphabetIsTable | include/webserver/base64.hpp:11 | the source's string is table 1 of RFC 4648 |
| Base64.DecodeEncoded | include/webserver/base64.hpp:9-41 | a decoder after section 4 of RFC 4648 gives back the bytes |
| Base64.EncodeDecoded | include/webserver/base64.hpp:9-41 | every string that decodes is the encoding of what it decodes to |
| Base64.EncodedShape | include/webserver/base64.hpp:12-39 | length is 4 times the started groups of three, padding is in the last places only, everything else is in the alphabet |
| Base64.EncodedLetters | include/webserver/base64.hpp:11-39 | every character that is not padding is the letter of table 1 for its own six bits, most significant first |
| Base64.EncodedHi | tests/test_base64_sha1.cpp:4-9 | the two bytes of hi encode to aGk= |
| Base64.EncodeConcat | include/webserver/base64.hpp:15-23 | encoding distributes over concatenation after a multiple of three bytes |
| Http.Lc | include/webserver/http.hpp:10-15 | every character in lower case |
| Http.TrimSpaces | include/webserver/http.hpp:17-23 | the two index loops compute the trimmed string |
| HttpLaws.TrimDropsOuterSpace | include/webserver/http.hpp:17-23 | trimming drops all the white space at both ends and nothing else |
| HttpLaws.SpaceCharacters | include/webserver/http.hpp:17-23 | white space is the space and the characters 9 to 13 |
| HttpLaws.LowerLetters | include/webserver/http.hpp:10-15 | each of the 26 letters goes to its lower case, everything else stays |
| Http.ReadHeaders | include/webserver/http.hpp:49-57 | the header loop stops at an empty line, passes over lines without a colon, lets later names replace earlier ones |
| Http.ParseHttpRequest | include/webserver/http.hpp:33-59 | succeeds exactly when there is a blank line and a request line of three words, with the map of the headers |
| Http.TokenHas | include/webserver/http.hpp:61-71 | true if and only if some piece between commas, trimmed and lowered, is the token |
| HttpLaws.BlankOfJoined | include/webserver/http.hpp:35-38 | the first blank line of joined lines is the one after the last of them |
| HttpLaws.HeadReadsBack | include/webserver/http.hpp:35-57 | any first line with headers behind it, lines without a colon among them, reads back as that line and the map of the headers |
| HttpLaws.RenderRoundTrip | include/webserver/http.hpp:33-59 | a rendered request parses to its method, path, version and the map of lowered trimmed names to trimmed values, last duplicate winning, whatever follows |
| HttpLaws.ThreeWordsNeeded | include/webserver/http.hpp:41-48 | a request line of any words parses to its first three, and not at all with fewer |
| HttpLaws.LaterHeaderCounts | include/webserver/http.hpp:53-56 | a header is found under its lowered trimmed name with its trimmed value, replaces an earlier one of that name and leaves all others |
| HttpLaws.EmptyLineEndsHeaders | include/webserver/http.hpp:49-52 | headers end at the first empty line, with or without a carriage return, whatever follows |
| HttpLaws.TokenInList | include/webserver/http.hpp:61-71 | a list of pieces joined by commas holds a token if and only if some piece, trimmed and lowered, is the token, an empty last piece aside |
| HttpLaws.OnlyTheHeadMatters | include/webserver/http.hpp:35-38 | bytes after the first blank line never matter |
| Handshake.ReadRequest | src/server_impl.cpp:119-127 | the read loop ends on every list of receives, with the buffer of the first moment a blank line is in it, or with nothing after an end, an error or an overlong head |
| Handshake.IsValidUpgrade | src/handshake.cpp:13-30 | true if and only if verb, version, both tokens, version 13 and the key are there |
| Handshake.Accept | src/handshake.cpp:31-39 | the accept value is the Base64 of the SHA-1 digest of the key with the GUID |
| Handshake.PerformHandshake | src/handshake.cpp:40-82 | nothing is sent without a head, 400 goes to a refused one, 101 to an accepted one, and success needs the send to succeed |
| HandshakeLaws.ReadHeadExactly | src/handshake.cpp:42-57 | from any buffer, a cutting of the stream is read if and only if the buffer is within the limit when the first blank line is complete, and then parses like the whole stream |
| HandshakeLaws.NoBlankNoRequest | src/handshake.cpp:44-56 | a stream without a blank line is never handed on |
| HandshakeLaws.CuttingIsIrrelevant | src/server_impl.cpp:119-128 | any two cuttings of a stream whose head ends within 30721 bytes give the same parsed request |
| HandshakeLaws.SomeCuttingIsRefused | src/server_impl.cpp:119-127 | the bound 30721 is exact: a stream with a blank line has a cutting that is refused if and only if its head ends after 30721 bytes and it is itself above 32768 |
| HandshakeLaws.BufferIsBounded | src/server_impl.cpp:119-127 | the buffer never exceeds 34816 bytes |
| UpgradeLaws.EndBeforeBlankLine | src/server_impl.cpp:119-127 | an end or error before the blank line ends the handshake, whatever would have come |
| HandshakeLaws.AcceptShape | src/handshake.cpp:37-38 | the accept value is 28 characters, none white space, and decodes to the SHA-1 digest of the key followed by the GUID |
| HandshakeLaws.SwitchingShape | src/handshake.cpp:71-75 | the only blank line of the 101 answer is at its end, its first line is the status line, and its headers read back as Upgrade, Connection and the accept value |
| HandshakeLaws.AcceptedByBoth | src/server_impl.cpp:128-142 | a request the library's check accepts passes the server's and gets a byte-identical 101 answer, with an accept value of 28 characters |
| HandshakeLaws.SameAnswerExactly | src/server_impl.cpp:128-142 | the server's answer is the library's if and only if the request parses and passes the library's check |
| HandshakeLaws.KeyAloneIsEnough | src/server_impl.cpp:128-142 | a request with no header but the key, for every one-line key, is upgraded by the server and refused with 400 by the library |
| UpgradeLaws.LibraryAnswers | src/handshake.cpp:13-82 | for every rendered request: 101 if verb, version, both tokens, version 13 and key are there, else the 400 answer |
| UpgradeLaws.ServerAnswers | src/server_impl.cpp:128-143 | for every rendered request: 101 if it has GET, HTTP/1.1 and a key, else nothing |
| UpgradeLaws.HandshakeExactly | src/server_impl.cpp:77-145 | from the receives: the answer goes out if and only if the blank line is complete within 32768 bytes and the request has GET, HTTP/1.1 and a key, and the connection opens if and only if the send also succeeds |
| HandshakeLaws.ClientIsAccepted | src/webclient.cpp:49-55 | the client's request, for every one-line host, every port and every path without white space, passes the upgrade check with its key, and names host and port |
| HandshakeLaws.DecimalReadsBack | src/webclient.cpp:49-55 | the port as written reads back as the number |
| UpgradeLaws.ClientOpens | src/server_impl.cpp:77-145 | the client's request, cut in any way and with anything behind it, opens a connection with the 101 answer and `on_open`, or ends it when the send fails |
| ConnectionLaws.ShakeOuts | src/server_impl.cpp:117-145 | a handshake either opens with one send and then `on_open`, or ends with `on_close` |
| ConnectionLaws.DataOuts | src/server_impl.cpp:147-250 | a receive either leaves the connection open with no close frame sent, or says at most one farewell and then `on_close` |
| ConnectionLaws.LifeShape | src/server_impl.cpp:77-96 | every life is nothing yet, or an answer, `on_open` and a steady run, or that with a farewell behind it |
| ConnectionLaws.LifeIsOrdered | src/server_impl.cpp:77-115 | at most one `on_open` and one `on_close`, the latter last, messages after the former, no send after a close frame |
| OctetLaws.OneReceive | src/server_impl.cpp:147-151 | a readiness of an open connection is one receive of at most 4096 bytes, and with nothing there the connection ends |
| OctetLaws.RefusedInOctets | src/server_impl.cpp:152-169 | every receive without a whole frame ends with 1002, every frame above the limit with 1009, code bytes, reason and `on_close` included, for every signed limit |
| OctetLaws.AnsweredInOctets | src/server_impl.cpp:170-249 | for every frame within the limit and any message in progress, by opcode number: the state, the callbacks, and first byte, length and payload of what is sent |
| MessageLaws.AcceptedPayload | src/server_impl.cpp:149-169 | with a limit of 0 to 65536, a payload past the size check was in the receive buffer byte for byte after unmasking, and is at most 4092 bytes |
| MessageLaws.LargeFrameAnswer | src/server_impl.cpp:149-169 | for every layout of a frame no receive can hold, every prefix one can hold and every limit: 1002, or, once the header of a length above 65536 is there, 1009 or the step of a frame of zeros |
| MessageLaws.LargeLayouts | src/frame.cpp:65-91 | a frame of 4093 payload bytes or more fits no receive in any layout, one below 4083 fits in all |
| MessageLaws.OversizeAnswer | src/server_impl.cpp:154-169 | an oversize header alone, whatever follows it, draws 1009 or, when the limit allows the length, acts as a frame of that many zeros |
| MessageLaws.ZerosDelivered | src/server_impl.cpp:162-200 | at most fourteen bytes are delivered and echoed as a message of any length above 65536 the limit allows, all zero |
| MessageLaws.LimitsThatHold | src/server_impl.cpp:162 | over all 32-bit limits, every payload past the size check fits in its receive if and only if the limit is 0 to 65536 |
| MessageLaws.TrailingBytesAreDropped | src/server_impl.cpp:149-169 | in a receive that begins with a frame of at most 65536 bytes, in any layout, the bytes after that frame change nothing |
| MessageLaws.FarewellCode | src/server_impl.cpp:154-248 | a non-empty receive ends the connection exactly when it does not parse, is too large, is a close frame or has an unknown opcode, and the code the peer then reads is 1002, 1009, 1000 or 1002 |
| MessageLaws.PongIsRefused | src/server_impl.cpp:241-248 | a PONG within the limit ends the connection, and the peer reads 1002 |
| MessageLaws.EchoReadsBack | src/server_impl.cpp:174-232 | an echo of any message below 2 to the 64 bytes parses back as one final frame of its type with the whole message if and only if the message is at most 65536 bytes or all zero |
| MessageLaws.CloseCodeReadsBack | src/frame.cpp:120-130 | a close frame parses back, with its code in the first two payload bytes and the reason behind them |
| MessageLaws.FragmentsInProgress | src/server_impl.cpp:170-226 | the message in progress is the last opener's payload and type and every continuation since; there is one exactly when an opener is unfinished |
| MessageLaws.FinalContinuation | src/server_impl.cpp:201-226 | a final continuation delivers that message with its own payload added, and nothing when no message is open |
| MessageLaws.StrayContinuation | src/server_impl.cpp:201-226 | a continuation with no message to continue, last or not, delivers and keeps nothing |
| MessageLaws.LifeFollowsFrames | src/server_impl.cpp:147-250 | an open connection is where the machine on its parsed frames alone would be, and since its handshake has sent and called back what that machine does |
| MessageLaws.RunFollowsFrames | src/server_impl.cpp:147-250 | the same from any open state: a run that stays open is the run of the frames its receives parse to |
| MessageLaws.WireRun | src/server_impl.cpp:147-250 | receives that each begin with a frame within the limit, masked or not, in any layout and with anything behind it, are handled frame by frame |
| MessageLaws.WholeMessage | src/server_impl.cpp:170-200 | a message that begins a receive in one frame, in any layout, draws the callback, then the echo, and leaves a fragmented message in progress as it was |
| MessageLaws.PingIsAnswered | src/server_impl.cpp:227-232 | a ping draws one pong with its payload, with or without a message in progress, and changes nothing |
| MessageLaws.FragmentedMessage | src/server_impl.cpp:147-232 | a message in two or more fragments with pings between, each beginning a receive in any layout, draws one pong per ping, one callback with the whole and its type, one echo of the whole |
| MessageLaws.CoalescedFragmentsAreLost | src/server_impl.cpp:149-154 | whatever comes behind a first fragment in its receive is lost, in any layout, so a last fragment there delivers no message, though frame by frame it would |
| MessageLaws.RunInParts | src/server_impl.cpp:61-98 | a life may be cut anywhere: the second part goes on from where the first ended |
| CutLaws.FramesExactly | src/server_impl.cpp:147-250 | from an open state a connection is given a list of frames if and only if its receives parse to them one by one until one fails to parse, one ends the connection, or there are no more |
| CutLaws.CutsAgree | src/server_impl.cpp:149-154 | two cuttings of one stream are equal when no chunk of one is shorter than its partner in the other |
| CutLaws.ReadAsLaidOut | src/server_impl.cpp:147-250 | a stream of frames in any layouts is read as sent, no receive shorter than its frame, if and only if it arrives cut at the frame boundaries and no frame before the last ends the connection |
| CutLaws.ReadAsBuilt | src/server_impl.cpp:147-250 | a stream of unmasked built frames is read as sent if and only if it arrives cut at the frame boundaries and no frame before the last ends the connection |
| CutLaws.ChunksReadAsBuilt | src/frame.cpp:7-91 | any cutting of concatenated encodings parses chunk by chunk to their frames if and only if the chunks are the encodings |
| CutLaws.ReadAsMasked | src/server_impl.cpp:147-250 | a stream of masked frames is read as sent, every receive masked, if and only if it arrives cut at the frame boundaries and no frame before the last ends the connection |
| CutLaws.KeyReadAsFrame | src/server_impl.cpp:147-154 | the clause on masked receives is needed: two masked frames that are read as sent from a cutting inside the second one's key |
| CutLaws.HandledAsSent | src/server_impl.cpp:147-250 | frames in any layouts, within the limit and cut at their boundaries, are handled frame by frame |
| World.Isolation | src/server_impl.cpp:61-98 | in every run each connection's sends and callbacks are those of the reference machine on its own inputs, under any interleaving and descriptor reuse |
| World.SlotsFollow | src/server_impl.cpp:61-115 | every open descriptor belongs to one connection and is where that connection's own unfinished life has led |
| World.EventsOnOwnDescriptor | src/server_impl.cpp:65-115 | every event is on the descriptor its connection was accepted as |
| World.EveryLifeIsOrdered | src/server_impl.cpp:77-115 | the order of callbacks and sends holds for every connection of every run |
| RunLaws.FragmentedMessageInAnyRun | src/server_impl.cpp:147-232 | the fragmented-message law in any run, for frames in any layout, whatever other connections do in between |
| RunLaws.FragmentsInAnyRun | src/server_impl.cpp:170-226 | in any run an open connection's message in progress is what its own frames left unfinished |
| RunLaws.FinalFragmentInAnyRun | src/server_impl.cpp:201-226 | in any run a final continuation adds to the trace the delivery and echo of the message that connection's frames left unfinished with the last payload, or nothing when they left none, and clears it |
| RunLaws.NewClientIsEchoed | src/server_impl.cpp:52-200 | in any run a waiting client that sends the client request, cut in any way, and then a message draws exactly the 101 answer, `on_open`, the message callback and the echo, whatever others do |
| Scan.SnapshotHolds | src/server_impl.cpp:54-98 | whatever a pass reads was there when its snapshot was taken, in the state it then had; a descriptor accepted in the pass is not read in it |
| PassLaws.EveryReadyIsServed | src/server_impl.cpp:61-98 | a pass serves every ready descriptor of a connection with what waits there |
| PassLaws.ServedInOrder | src/server_impl.cpp:61-98 | it serves them in ascending order, so none twice, and nobody else |
| PassLaws.WaitingIsAccepted | src/server_impl.cpp:65-74 | it accepts the client that waits when the descriptor it is to have is free |
| PassLaws.AcceptedExactly | src/server_impl.cpp:65-74 | whom it accepts, exactly: that client, also when the pass has just freed the descriptor, and nobody else |
| PassLaws.WhatIsBrought | src/server_impl.cpp:61-98 | it brings a connection what waits at its descriptor, once, and nothing when nothing waits |
| PassLaws.EveryRoundServes | src/server_impl.cpp:52-99 | in every round of a run every open connection gets exactly what waits for it, no other gets anything, and the waiting client is accepted exactly when its descriptor is free |
| PassLaws.NobodyLostInRun | src/server_impl.cpp:52-115 | in every run a connection whose own life has not ended still has its descriptor |
| Server.WebSocketServer.constructor | src/server_impl.cpp:22-51 | a listening server has only its own descriptor and no connection |
| Server.WebSocketServer.AcceptClient | src/server_impl.cpp:71-73 | the tables gain one connection that has not shaken hands, and `fdmax_` still bounds them |
| Server.WebSocketServer.CleanupClient | src/server_impl.cpp:105-115 | the descriptor leaves all four tables, the others keep their state, `on_close` is called |
| Server.WebSocketServer.PerformHandshake | src/server_impl.cpp:117-145 | sends and succeeds as the reference machine's handshake does |
| Server.WebSocketServer.OnDataFrame | src/server_impl.cpp:170-200 | a text or binary frame is delivered and echoed, or opens a message in the fragment tables |
| Server.WebSocketServer.OnContinuation | src/server_impl.cpp:201-226 | the fragment tables, entries made by lookup included, follow the reference machine's message in progress |
| Server.WebSocketServer.HandleFrame | src/server_impl.cpp:147-250 | one receive changes only its own descriptor's state, to what the reference machine makes of it |
| Server.WebSocketServer.ServeHandshake | src/server_impl.cpp:77-89 | the handshake branch with its clean-up is one reaction of the reference machine |
| Server.WebSocketServer.ServeFrame | src/server_impl.cpp:90-96 | so is the frame branch |
| Server.WebSocketServer.ServeClient | src/server_impl.cpp:75-97 | a ready client is one step of the world, and all table invariants hold again after it |
| Server.WebSocketServer.ScanRound | src/server_impl.cpp:54-99 | the scan ends although `fdmax_` may grow under it, does exactly the steps of a pass over its snapshot, and keeps every invariant |
| Server.WebSocketServer.FragmentTables | src/server_impl.cpp:180-224 | at every step boundary there is a stored opcode exactly when a message is unfinished, and opcode and buffer are that message |
| Server.WebSocketServer.Run | src/server_impl.cpp:52-100 | a whole run takes exactly its rounds' steps, each round serves whoever waits, and every connection did what the reference machine does on its own inputs, in the right order |

## Left out

- Sockets, `select`, `bind`, `listen`, `shutdown` and `close`: replaced by the inputs of a round and the trace.
- Results of `send` in `handle_frame`, which the source ignores: the trace holds what was handed to `send`.
- Capacity of `fd_set`: `master_` is a set, and descriptors are assumed to fit.
- Callbacks that are not set, or that call back into the server: all three are taken as set, and as only observing.
- `set_max_payload` and `set_backlog` during a run: the payload limit is a constant of the server object.
- Memory: a payload resized to a huge declared length is a mathematical sequence of zeros.
- `Frame::mask` and `Frame::masking_key`: the codec neither reads nor writes them.
- Locales other than C for `isspace` and `tolower`.
- Single-octet masks and shifts are written as division and remainder, and `|` of disjoint bits as addition.
- A second `finalize` on the same hash object: the first changes the hash words, so claims are about one.
- The sample digest and accept value of `tests/test_base64_sha1.cpp` and `tests/test_handshake.cpp`: the digest is characterised for all messages, not evaluated on these.
- `build_ping`: declared in the header, not defined in the sources.
- `src/webclient.cpp` beyond the request string, `src/client.cpp`, `src/server.cpp`, `src/log.cpp`, `examples/echo_client.cpp`: plumbing, mains and printing.
- Rules of RFC 6455 the code does not enforce: reserved bits, mandatory client masking, size and FIN of control frames, UTF-8, closing handshake.

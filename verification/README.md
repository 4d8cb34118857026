# Verification model of the QWormhole native transport

A Dafny model of the parts of the repository that move bytes: the libwebsockets transport of
`c/qwormhole_lws.cpp`, two libwebsockets plugins, libsocket's datagrams over a stream, and the partial-write
bookkeeping of the QUIC bench. `dafny verify dfyconfig.toml` checks all of it.

| module | what it is |
|---|---|
| `Sequences`, `Bytes`, `Wrappers` | regrouping, byte strings, the 32-bit prefix, options |
| `JsonValue`, `JsonReader`, `JsonGrammar`, `JsonRecognition`, `JsonParser` | values; the reader as functions; parse trees; reader = grammar; the parser class against the reader |
| `KeyOrder`, `JsonPlain`, `JsonWriter`, `JsonCanonical` | `std::map` order; trees without layout; the serializer and its inverse; the signed text |
| `Handshake` | what makes a handshake frame acceptable |
| `Framing`, `Inbound` | frames and the one-shot decoder; the receiving half of a server connection |
| `SendQueue`, `Outbound`, `Client` | queued writes; the sending half of a server connection; the client |
| `SessionList`, `Ring`, `Mirror`, `Status` | the plugins' session list; the lws ring; the mirror and status protocols |
| `Datagram` | `dgram_over_stream` |
| `PendingFrames` | `consumeWritten` and `sendFramesOnStream` |

## How to read it

- Code that updates state in the source is a class with methods and loops here, proved against functions on values;
  `Valid()` is what every operation keeps. Where operations interleave, the unit is the lock region: a server send is
  one (`Enqueue`); a client send is several, which are `Region` values, so that another thread can come between
  them. The callback loops call `Interference` wherever another thread can run. The `Run` methods put arbitrary
  schedules together, so their postconditions hold in every run.
- The environment is passed in: `answers(k)` is what the k-th `lws_write` returns (any count, or a failure),
  `arrivals` what other threads do meanwhile, and socket reads choose their length freely. A ghost `callbackPending`
  or `pending` says that a writeable callback has been asked for and has not begun; the event loop may also deliver
  one that nobody asked for.
- A grammar is a datatype of parse trees: `Spell(t, rest)` is the text of a tree followed by `rest`, `Meaning` its
  value. Texts are strings with one character for each byte.
- `std::stod` and `FormatNumber` are exact on integers of at most 15 digits, which doubles hold exactly, and
  arbitrary elsewhere (`Floats`). Base64, the hash of a key and the signature check are arbitrary functions (`Crypto`).
- Vocabulary that a specification shares with the code (digits, escapes, key order, how much of an item an answer
  covers, what an accepted amount is) is pinned by lemmas ending in `Exactly`, which say it once more in other terms.
- The bitwise or of shifted bytes is written as their sum; the shifted bytes share no bit.
- The ring counts elements instead of bytes; all its offsets are multiples of the element size.

## What the code turns out to do

- The server's wake-up flag is cleared only when something is received. After a callback has drained the queue, the
  next payload is queued and no callback is asked for (`Outbound.LostWakeUp`). Over runs (`Outbound.Run`): something is
  queued and no callback on its way exactly if the last callback left the queue empty, the flag set and nothing asked
  for, and since then something was sent, but nothing after something was received.
- `Stop` leaves the client's flag set. After connecting again by a connect that completes at once, nobody asks for a
  callback, however much is sent (`ReconnectIsStuck`), until one comes that nobody asked for. A connect that has to wait
  asks the event loop for the socket to become writeable itself (libwebsockets/lib/core-net/client/connect3.c:672-678),
  and the request stands until a writeable callback begins (libwebsockets/lib/roles/raw-skt/ops-raw-skt.c:253-262),
  which heals the client. Over runs, a client that connects again has a callback on its way exactly if the connect had
  to wait or an unasked callback has come (`RunOfReconnected`).
- When a mirror session joins while something waits, the plugin asks for no callback for it. Over runs, as long as it is
  not served, one is on its way exactly if a message has arrived since, other than one dropped for lack of memory
  (`NewcomerWaits`, with `NewcomerSleeps` as the witness). Of all sessions with something to read, exactly the newcomers
  are not asked for (`Mirror.Run`).
- Of a signed handshake the index remembered is the one computed from the key, not the one claimed
  (`RememberedIsProved`).
- A payload of 2^32 bytes or more is announced with its length modulo 2^32 (`FramingRoundTripExactly`,
  `EncodedFrameExactly`).
- `sndmsg` of an empty message sends the prefix before it fails, so the receiver stays synchronised.
- The client never queues an item without bytes, so the branch that skips one while draining is dead.
- Two branches of the mirror callback are dead: skipping an element without payload, and turning receiving off when
  the ring is already full. In the status callback the jump to the closing from an empty walk is dead.
- The mirror's comment says receiving is enabled above `RXFLOW_MAX` free slots; the code enables it at that number.
- The bench keeps frames without any bytes pending until some byte is accepted.

## Model

| member | source | states |
|---|---|---|
| JsonRecognition.ReadsExactlyTheGrammar | c/qwormhole_lws.cpp:195-513 | The parser accepts a text with value v if and only if the text has a parse tree of the JSON grammar (with the code's relaxations) whose meaning is v. |
| JsonRecognition.GrammarIsUnambiguous | c/qwormhole_lws.cpp:195-513 | All parse trees of one text denote the same value. |
| JsonRecognition.DocumentComplete | c/qwormhole_lws.cpp:195-209 | Every derivable document, whatever its layout and escapes, is read to the end as its meaning. |
| JsonRecognition.DocumentSound | c/qwormhole_lws.cpp:195-209 | From an accepted text a parse tree of exactly that text and that value can be built. |
| JsonRecognition.ValueComplete | c/qwormhole_lws.cpp:211-237 | A value's spelling is recognised in front of any text that begins with layout, a comma or a closing mark, and nothing more is consumed. |
| JsonRecognition.ValueSound | c/qwormhole_lws.cpp:211-237 | What is consumed for a value is the spelling of a tree that means the value. |
| JsonRecognition.MembersComplete | c/qwormhole_lws.cpp:239-283 | Inserting members one after another with emplace yields the map in which the first of equal keys wins, for any members seen before. |
| JsonRecognition.ElementsComplete | c/qwormhole_lws.cpp:285-313 | An element list is read in order up to its closing bracket. |
| JsonRecognition.UnitsComplete | c/qwormhole_lws.cpp:315-360 | Raw characters, simple escapes and unicode escapes up to the closing quote are read as the bytes they stand for. |
| JsonRecognition.CharsSound | c/qwormhole_lws.cpp:315-360 | An accepted string is a sequence of raw characters and escapes followed by a quote. |
| JsonRecognition.LiteralComplete | c/qwormhole_lws.cpp:404-463 | A number literal (sign, integer without leading zero, fraction, exponent) is cut exactly where it ends. |
| JsonRecognition.LiteralSound | c/qwormhole_lws.cpp:404-463 | What the number scanner passes over is a literal of the number grammar. |
| JsonGrammar.FirstOfEqualKeys | c/qwormhole_lws.cpp:262 | The value of an object gives each key the value written first; no other keys are in it. |
| JsonReader.NumberJoins | c/qwormhole_lws.cpp:451-453 | The text handed to stod is exactly the text the scanner moved past. |
| JsonValue.Utf8RoundTrip | c/qwormhole_lws.cpp:386-402 | The bytes appended for a code point are the UTF-8 form of it, whatever follows: a decoder gets the code point back, and there are no more bytes than the shortest form has. |
| JsonValue.HexDigitExactly | c/qwormhole_lws.cpp:370-380 | The hexadecimal digits are those of the alphabets 0-9a-f and 0-9A-F, and each is worth its place there. |
| JsonReader.Hex4Exactly | c/qwormhole_lws.cpp:362-384 | A unicode escape is read as a code if and only if its four characters spell that code in hexadecimal, in either case. |
| JsonValue.SimpleEscapeExactly | c/qwormhole_lws.cpp:333-341 | The eight two-character escapes, with the codes of the characters they stand for, and no others. |
| JsonValue.BlankExactly | c/qwormhole_lws.cpp:504-513 | The blanks are the codes 20, 09, 0A and 0D. |
| JsonReader.ErrorsAreReported | c/qwormhole_lws.cpp:195-237 | Whatever is wrong with a string, a number or the value at the front is what is reported for the text. |
| JsonParser.SimpleJsonParser.Parse | c/qwormhole_lws.cpp:195-209 | The class does what the reader functions say: same verdict, value and error text, never reading out of range. |
| JsonParser.SimpleJsonParser.ParseValue | c/qwormhole_lws.cpp:211-237 | Dispatch on the first character; result, error and final position as the reader function. |
| JsonParser.SimpleJsonParser.ParseObject | c/qwormhole_lws.cpp:239-283 | The loop over members with its early exits; result, error and position as the reader function. |
| JsonParser.SimpleJsonParser.ParseArray | c/qwormhole_lws.cpp:285-313 | The loop over elements; result, error and position as the reader function. |
| JsonParser.SimpleJsonParser.ParseString | c/qwormhole_lws.cpp:315-360 | The loop over characters accumulates exactly the decoded text. |
| JsonParser.SimpleJsonParser.ParseUnicodeEscape | c/qwormhole_lws.cpp:362-384 | Four hex digits give their value; anything else is refused. |
| JsonParser.SimpleJsonParser.ParseNumber | c/qwormhole_lws.cpp:404-463 | Scanning and conversion of a literal, with the error of each part. |
| JsonParser.SimpleJsonParser.ParseLiteral | c/qwormhole_lws.cpp:465-482 | true, false, null and nothing else. |
| JsonParser.SimpleJsonParser.MatchLiteral | c/qwormhole_lws.cpp:492-502 | Matches, and consumes, a word only when it is a prefix of the rest. |
| JsonParser.SimpleJsonParser.SkipWhitespace | c/qwormhole_lws.cpp:504-513 | Moves past exactly the leading blanks. |
| JsonWriter.ReadUndoesWrite | c/qwormhole_lws.cpp:566-663 | Parsing what the serializer writes gives the value back and consumes all input, for every value whose numbers are integers below 10^15 in magnitude. |
| JsonWriter.Printed | c/qwormhole_lws.cpp:618-663 | What is written for a value, in front of any text, is the spelling of a parse tree that means the value and is plain: no blanks, members in byte order of their keys, integers only, escapes only where needed. |
| JsonWriter.EscapedUnits | c/qwormhole_lws.cpp:566-591 | Escaping is inverted by the string grammar for every string. |
| JsonWriter.EscapeCharExactly | c/qwormhole_lws.cpp:566-591 | What is written for every character: a backslash and a letter for seven of them, upper-case hexadecimal for the other control characters, itself otherwise. |
| JsonWriter.EscapeStringAppend | c/qwormhole_lws.cpp:566-591 | Strings are escaped character by character, in order. |
| JsonValue.NumberRoundTrip | c/qwormhole_lws.cpp:593-614 | The printed digits of a short integer convert back to it. |
| JsonValue.PrintedDigits | c/qwormhole_lws.cpp:593-614 | A printed integer ends with its last digit, behind what is printed for the rest of it. |
| JsonValue.ShortIntegersPrint | c/qwormhole_lws.cpp:593-614 | Every integer below 10^15 in magnitude is printed in decimal, with a minus sign if it is negative. |
| KeyOrder.SortedKeysAscend | c/qwormhole_lws.cpp:644-645 | Members are visited in strictly ascending order of their keys. |
| KeyOrder.BelowExactly | c/qwormhole_lws.cpp:644-645 | One key comes before another exactly if it runs out first or has the smaller byte where they first differ. |
| KeyOrder.SortedKeysInByteOrder | c/qwormhole_lws.cpp:644-645 | All keys, and no others, are visited in that order. |
| KeyOrder.AscendingIsUnique | c/qwormhole_lws.cpp:644-645 | That order is determined by the set of keys alone. |
| JsonCanonical.CanonicalTextIdentifies | c/qwormhole_lws.cpp:632-663 | The canonical texts of two roots are equal if and only if the roots agree after deleting the signature member of the root; nested ones count. |
| JsonCanonical.CanonicalIsUnsigned | c/qwormhole_lws.cpp:645-648 | The canonical text is the plain text of the root without its signature. |
| JsonCanonical.CanonicalTextIsPlain | c/qwormhole_lws.cpp:632-663 | The signed text of a root spells the root without its signature, with no layout and the members of every object in byte order. |
| JsonCanonical.NothingSkippedBelow | c/qwormhole_lws.cpp:618-663 | Below the root the flag that skips the signature has no effect. |
| JsonCanonical.ReorderedMeansSame | c/qwormhole_lws.cpp:239-283 | Texts with distinct keys that differ in layout, escapes or member order at any depth have the same value. |
| JsonCanonical.ReorderedExactly | c/qwormhole_lws.cpp:239-283 | Of texts with distinct keys, being equal up to layout, escapes and member order is the same as having the same value. |
| JsonCanonical.CanonicalTextIgnoresLayout | c/qwormhole_lws.cpp:904-932 | Hence what is signed does not depend on layout or member order. |
| Handshake.AcceptedExactly | c/qwormhole_lws.cpp:2530-2567 | A frame is accepted exactly when its text derives a root of type handshake with an admissible version which, if it has the four signed fields, is signed over itself without the signature. |
| Handshake.RefusedExactly | c/qwormhole_lws.cpp:2530-2567 | Which error a frame is refused with: that of the parser, a missing type, the version, or the first fault of the signed fields. |
| Handshake.TextIsTheBytes | c/qwormhole_lws.cpp:2536 | The text of a frame has one character for each byte, with its code. |
| Handshake.VerifiedIsProperlySigned | c/qwormhole_lws.cpp:904-937 | The order of checks amounts to: key and signature decode, the hash belongs to the key, and the key signed the canonical text. |
| Handshake.VerdictIgnoresLayout | c/qwormhole_lws.cpp:2530-2567 | Reformatting or reordering a handshake does not change the verdict. |
| Handshake.VerdictSurvivesRewrite | c/qwormhole_lws.cpp:2530-2567 | Neither does parsing it and serializing it again. |
| Handshake.RememberedIsProved | c/qwormhole_lws.cpp:904-963 | Of an accepted handshake with the signed fields, the hash and the index remembered are those of the key that signed it, whatever index is claimed; of any other, what is remembered is what it claims. |
| Handshake.ClaimsExactly | c/qwormhole_lws.cpp:938-963 | What is remembered as claimed: version and hash if they are texts, the index if it is a number or converts to one, and the tags that are texts or numbers. |
| Inbound.Connection.HandleHandshakeFrame | c/qwormhole_lws.cpp:2530-2567 | Runs the parser and the checks; accepts exactly by that verdict, remembering what the handshake says and its key proves; otherwise reports its error and remembers nothing. |
| Framing.SplitRejoins | c/qwormhole_lws.cpp:2569-2607 | The frames split off are within the limit and, framed again and followed by the rest, are the stream. |
| Framing.SplitExtends | c/qwormhole_lws.cpp:2569-2618 | Splitting a longer stream continues where the shorter one stopped. |
| Framing.RestIsIncomplete | c/qwormhole_lws.cpp:2573-2584 | What is left over holds no whole frame and at most the limit plus 3 bytes, unless the length in front of it is over the limit, which is exactly when the stream is refused. |
| Framing.FramingRoundTrip | c/qwormhole_lws.cpp:2569-2635 | Framing any list of payloads within the limit and splitting gives the list back with nothing left. |
| Framing.FramingRoundTripExactly | c/qwormhole_lws.cpp:2620-2635 | One payload survives if and only if it is within the limit and shorter than 2^32, the range of the prefix. |
| Framing.FramedExactly | c/qwormhole_lws.cpp:2620-2635 | A payload is framed as itself behind four bytes that tell its length, or the remainder of it by 2^32; without prefixes it is sent as it is. |
| Framing.DeliversPayloads | c/qwormhole_lws.cpp:2569-2635 | Behind an opened connection's stream, framed payloads come out as exactly these messages. |
| Framing.DecodeIsWellGated | c/qwormhole_lws.cpp:2592-2604 | In every run the connection is announced at most once and before any message. |
| Framing.MessagesAreFrames | c/qwormhole_lws.cpp:2592-2604 | Messages are the frames in order; with a handshake required the first frame is never one, and a refused connection has none. |
| Framing.ErrorEndsTheRun | c/qwormhole_lws.cpp:2580-2604 | A run is rejected if and only if an error is reported; it is the only one and the last thing that happens: the verdict on the first frame, or else the length beyond the limit. |
| Framing.OpeningExactly | c/qwormhole_lws.cpp:2592-2604 | Only the first frame is taken for a handshake, exactly if one is required, and before anything else; the connection is announced exactly if none is required or it is accepted. |
| Framing.RejectionIsFinal | c/qwormhole_lws.cpp:2736-2741 | Nothing received after a rejection changes what the connection has done. |
| Inbound.Connection.ReceiveAll | c/qwormhole_lws.cpp:2713-2742 | For every cut of a stream into deliveries, from the beginning or in mid-life, the events and the final rejection are those of the one-shot decoder on the whole stream; one announcement at most, before any message; an error exactly at the end of a rejected run; what is remembered comes from the first frame. |
| Inbound.Connection.ReceivePayloads | c/qwormhole_lws.cpp:2569-2635 | Framed payloads within the limit, cut into deliveries in any way and fed to an open connection between frames, come out as exactly these messages, and the buffer is empty again. |
| Inbound.Connection.ProcessIncomingData | c/qwormhole_lws.cpp:2609-2618 | After each delivery: events of the one-shot decoder on all bytes so far; pending bytes are its rest; 2*offset <= size <= 2*(limit+3); bytes moved by compaction never exceed bytes consumed. |
| Inbound.Connection.ProcessBufferedFrames | c/qwormhole_lws.cpp:2569-2607 | The frame loop keeps buffer, gate and events in step with the decoder. |
| Inbound.Connection.TakeFrame | c/qwormhole_lws.cpp:2587-2604 | One round of the loop: a whole frame leaves the buffer and is a handshake or a message as the decoder says, or ends the connection. |
| Inbound.Connection.TrimRxBuffer | c/qwormhole_lws.cpp:2512-2528 | Keeps the pending bytes; compacts exactly if the offset is over half the size; counts exactly the bytes it moves, and pays for them with the offset it resets. |
| Outbound.Run | c/qwormhole_lws.cpp:2744-2827 | In every run, under any interleaving with senders: wire followed by the queue is the accepted payloads in order, the byte count is exact, the flag alternates, and after a failed write the wire is a prefix, whatever is sent afterwards. A queued payload is left without a callback on its way exactly if the last callback left the queue empty, the wake-up flag set and nothing asked for, and no send since then came after a receive. |
| Outbound.ServerConnection.OnWriteable | c/qwormhole_lws.cpp:2744-2827 | The callback's loop with other threads between its lock regions keeps all of that and asks again if anything is left; it reports a failure if the first write fails and none if no write does; the first write moves exactly the bytes its answer covers. Undisturbed, the wire, the queue and the verdict are exactly what the answers make of them: whole items up to the most allowed, or up to the first answer that falls short, with the bytes it covered. |
| Outbound.ServerConnection.DrainQueue | c/qwormhole_lws.cpp:2762-2815 | The loop: the same for every limit and all answers. |
| Outbound.ServerConnection.Enqueue | c/qwormhole_lws.cpp:2220-2231 | Appends, counts, sets the flag at the threshold, and asks for a callback exactly if the wake-up flag was clear. |
| Outbound.ServerConnection.PopFront | c/qwormhole_lws.cpp:2769-2777 | Takes the front item; order and count are kept. |
| Outbound.ServerConnection.Write | c/qwormhole_lws.cpp:2784-2793 | An answer of n moves exactly the first n bytes of the item to the wire, or all of it when n is larger; a failure moves none and ends the connection. |
| Outbound.ServerConnection.Settle | c/qwormhole_lws.cpp:2795-2814 | Subtracts exactly what was written (the clamp never acts) and puts an unfinished item back in front. |
| Outbound.ServerConnection.Finish | c/qwormhole_lws.cpp:2817-2826 | Clears the flag and reports a drain exactly when the queue is empty and the flag was set. |
| Outbound.Server.SendTo | c/qwormhole_lws.cpp:2184-2238 | Adds the framed payload to the one connection named, and nothing when there is none. |
| Outbound.Server.Broadcast | c/qwormhole_lws.cpp:2134-2182 | Adds the framed payload to every connection once. |
| Outbound.LostWakeUp | c/qwormhole_lws.cpp:2637-2645 | A run after which a payload is queued and no callback is asked for, because the writeable callback leaves the wake-up flag set. |
| Outbound.PendingExactly | c/qwormhole_lws.cpp:2637-2645 | Between callbacks one is asked for exactly by a send while the flag is clear: any send if it was clear at the start, otherwise a send after a receive. |
| Outbound.LostExactly | c/qwormhole_lws.cpp:2637-2645 | From a state in which no wake-up is lost, one is lost exactly if the queue was empty, the flag set and nothing asked for, and something was sent but nothing after a receive. |
| Client.Run | c/qwormhole_lws.cpp:1282-1605 | In every run over a socket, with every lock region of the JS thread on its own, callbacks that come asked for or not, and regions that still run after a failed write: wire followed by queue is the accepted bytes in order, and a callback is on its way if and only if one was at the start or a step has brought one about (a callback, or scheduling with the flag clear at the start). |
| Client.RunOfConnection | c/qwormhole_lws.cpp:1282-1605 | In every run of one connection, from a truthful flag on, after every step the flag is set and a callback on its way, also between the regions of a send and after a sendMany that stopped part-way. |
| Client.Drain | c/qwormhole_lws.cpp:1552-1605 | Once nothing more is enqueued, if the first write of each callback takes a byte, at most as many callbacks as bytes are left, each of them asked for, put everything accepted on the wire, unless a write fails. |
| Client.RunOfReconnected | c/qwormhole_lws.cpp:1254-1298 | A client that connects again has, in every run, a callback on its way if and only if the connect had to wait or an unasked callback has come. |
| Client.RegionsOnlyAdd | c/qwormhole_lws.cpp:1282-1298 | Lock regions in any order only append to the queue; a callback is asked for exactly if one of them schedules while the flag is clear. |
| Client.SendManySchedules | c/qwormhole_lws.cpp:1370-1398 | A sendMany schedules if and only if every entry is sendable. |
| Client.SendManyExactly | c/qwormhole_lws.cpp:1370-1398 | The regions of a sendMany: one enqueue for each entry in front of the first that is not sendable, in order, and one scheduling if there is none. |
| Client.LwsClient.OnWriteable | c/qwormhole_lws.cpp:1552-1605 | The drain loop, asked for or not and whatever the flag says, with lock regions of the JS thread at every point outside the lock: the flag is set and a callback pending at the end; with something queued, the first write moves exactly the bytes its answer covers, so the backlog strictly shrinks exactly if it takes a byte. Undisturbed, the wire, the queue and the verdict are exactly what the answers make of them. |
| Client.LwsClient.DrainQueue | c/qwormhole_lws.cpp:1558-1598 | The loop: the same for every limit and all answers. |
| SendQueue.RoundDrains | c/qwormhole_lws.cpp:1560-1598 | One more round of an undisturbed drain completes one more item, or ends the callback as its answer demands. |
| Client.LwsClient.Send | c/qwormhole_lws.cpp:1324-1356 | Its regions are one enqueue and one scheduling; uninterrupted it queues non-empty data and wakes the service thread exactly if the flag was clear. |
| Client.LwsClient.SendMany | c/qwormhole_lws.cpp:1358-1404 | Its regions are one enqueue for each entry up to the first that is not sendable, and the scheduling only if there is none; an open connection stays awake even then. |
| Client.LwsClient.Interference | c/qwormhole_lws.cpp:1282-1298 | Any sequence of lock regions of the JS thread has the effect of doing them one after another, and keeps a truthful flag truthful. |
| Client.LwsClient.OnConnected | c/qwormhole_lws.cpp:1529-1539 | After RAW_CONNECTED the flag is set, and a callback is on its way if and only if the flag was truthful before. |
| Client.LwsClient.CompleteConnect | libwebsockets/lib/roles/raw-skt/ops-raw-skt.c:138-262 | When the event that brings RAW_CONNECTED also says writeable, a writeable callback follows at once; afterwards the client is awake if and only if that was so or the flag was truthful. |
| Client.LwsClient.Connect | c/qwormhole_lws.cpp:1143-1241 | A new socket with nothing queued or sent; a callback is on its way exactly if the connect has to wait; the flag is as it was. |
| Client.LwsClient.ScheduleWritableLocked | c/qwormhole_lws.cpp:1291-1298 | Asks for a callback exactly when connected and none was asked for. |
| Client.LwsClient.Write | c/qwormhole_lws.cpp:1573-1590 | An answer of n moves exactly the first n bytes of the item to the wire, or all of it; what is left is the unwritten end; a failure moves none and ends the connection. |
| Client.LwsClient.Stop | c/qwormhole_lws.cpp:1254-1280 | Tears down everything but the flag. |
| Client.LwsClient.ReconnectIsStuck | c/qwormhole_lws.cpp:1254-1280 | After closing and connecting again at once the flag is set and nobody asks for a callback, whatever regions of sends run, until one comes unasked. |
| Mirror.Run | libwebsockets/plugins/protocol_lws_mirror.c:193-475 | In every run over one name, the instance being created for the first session and destroyed with the last: each session has been sent exactly the slice of the insertion log from its start to its tail; nothing it has yet to read is reclaimed; the ring never holds more than its capacity; who has something to read has a callback asked for if and only if it is not a newcomer; who is timed blocks the ring; receiving on implies at least 4 free slots, off implies fewer than 21. |
| Mirror.Take | libwebsockets/plugins/protocol_lws_mirror.c:258-342 | A join creates the instance if there is none; the departure of the last session destroys it. |
| Mirror.NewcomerWaits | libwebsockets/plugins/protocol_lws_mirror.c:281-292 | A session that joins while something waits, and is not served or closed, keeps having something to read in every run, and a callback is asked for it if and only if a message has arrived since that was not dropped for lack of memory. |
| Mirror.NewcomerSleeps | libwebsockets/plugins/protocol_lws_mirror.c:281-292 | It does happen: a session that joins behind a waiting message has something to read and no callback asked for. |
| Mirror.MirrorInstance.Perform | libwebsockets/plugins/protocol_lws_mirror.c:281-464 | Any step leaves a session it is not about where it is, asked for exactly if it was before or the step asks for everybody. |
| Mirror.MirrorInstance.Writeable | libwebsockets/plugins/protocol_lws_mirror.c:365-426 | Sends what waits, in order, as long as no write fails or chokes the pipe, and reports a failure exactly if it met one; others are untouched; asks again exactly if something is left; after a clean pass the oldest tail is the minimum again, even when the update is skipped; receiving is turned on again exactly when RXFLOW_MAX slots are free. |
| Mirror.MirrorInstance.SendAll | libwebsockets/plugins/protocol_lws_mirror.c:371-400 | The loop: it ends exactly when nothing is left, a write fails, or a write leaves the pipe choked. |
| Mirror.MirrorInstance.Receive | libwebsockets/plugins/protocol_lws_mirror.c:428-464 | Inserts for everybody, or drops when full, turns receiving off for all sessions exactly when fewer than RXFLOW_MIN slots are left, and asks for a callback for every session; without memory the message is dropped and nobody is asked for. |
| Mirror.MirrorInstance.Establish | libwebsockets/plugins/protocol_lws_mirror.c:281-292 | A new session starts at the oldest message still there. |
| Mirror.MirrorInstance.Close | libwebsockets/plugins/protocol_lws_mirror.c:298-342 | Removes one session, the others keep their order, and the oldest tail is again the minimum of the rest. |
| Mirror.MirrorInstance.UpdateWorstTail | libwebsockets/plugins/protocol_lws_mirror.c:114-171 | Moves the oldest tail to the minimum of all tails, says whether it moved, re-enables receiving once enough is free, and times the slowest sessions when they have something to read; keeps: on implies at least RXFLOW_MIN free and every session's flow on, off implies fewer than RXFLOW_MAX free, and whoever is timed is at the oldest tail with something to read. |
| Mirror.MirrorInstance.Hurry | libwebsockets/plugins/protocol_lws_mirror.c:150-168 | Every session at the oldest tail gets a timeout. |
| Mirror.MirrorInstance.FindWorst | libwebsockets/plugins/protocol_lws_mirror.c:122-134 | The loop finds a session at the least position. |
| Mirror.MirrorInstance.RxFlowInstance | libwebsockets/plugins/protocol_lws_mirror.c:81-90 | Switches every session's flow. |
| Ring.SlotDistance | libwebsockets/lib/misc/lws-ring.c:99-123 | Positions less than the size apart are told apart by their slots, and their distance follows from the slots. |
| Ring.LwsRing.CountFree | libwebsockets/lib/misc/lws-ring.c:69-97 | Free slots from head and oldest tail, whichever is ahead. |
| Ring.LwsRing.CountWaiting | libwebsockets/lib/misc/lws-ring.c:99-123 | Elements a reader has yet to see. |
| Ring.LwsRing.Insert | libwebsockets/lib/misc/lws-ring.c:156-196 | Stores at the head without touching an element not yet reclaimed. |
| Ring.LwsRing.UpdateOldestTail | libwebsockets/lib/misc/lws-ring.c:266-279 | Destroys exactly the elements behind the new oldest tail. |
| Status.Run | libwebsockets/plugins/protocol_lws_status.c:114-232 | In every run every session's frames form fragmented messages by section 5.4 of RFC 6455, each an opening, entries and a closing; a session at rest was last sent exactly the report of the live list: the opening, each session once, in order and with its comma, and the closing. |
| Status.StatusVhost.Writeable | libwebsockets/plugins/protocol_lws_status.c:139-215 | Each callback keeps that, and brings a session that is not at rest strictly closer to it. |
| Status.StatusVhost.StepList | libwebsockets/plugins/protocol_lws_status.c:155-190 | One entry with its comma, or the peer that vanished; the walk stays in step with the list unless marked as changed. |
| Status.StatusVhost.StepFinal | libwebsockets/plugins/protocol_lws_status.c:191-202 | Closes the message; starts over if the list changed meanwhile. |
| Status.StatusVhost.Settle | libwebsockets/plugins/protocol_lws_status.c:139-215 | Left alone, a session comes to rest and its last message is the report of the live sessions. |
| Status.StatusVhost.SettleAll | libwebsockets/plugins/protocol_lws_status.c:139-215 | While the list stays as it is, serving sessions with a callback on its way in any order brings all of them to rest, each last sent the report of the live list. |
| Status.ReportExactly | libwebsockets/plugins/protocol_lws_status.c:139-202 | A whole message in which nobody has vanished is determined by the sessions it lists. |
| Status.StatusVhost.TriggerResend | libwebsockets/plugins/protocol_lws_status.c:67-81 | Restarts sessions at rest and marks the others. |
| Status.StatusVhost.Establish | libwebsockets/plugins/protocol_lws_status.c:114-137 | Prepends the session and tells everybody. |
| Status.StatusVhost.Close | libwebsockets/plugins/protocol_lws_status.c:221-232 | Unlinks the session, keeps the order of the others and tells everybody that is left. |
| SessionList.UnlinkKeepsOrder | libwebsockets/plugins/protocol_lws_status.c:221-232 | Unlinking removes one entry and leaves the others in order. |
| Datagram.Exchange | libsocket/C++/dgramoverstream.cpp:167-213 | Whatever the messages, the capacities and the short reads, the k-th receive stores the first bytes of the k-th message, as many as fit. |
| Datagram.Synchronised | libsocket/C++/dgramoverstream.cpp:187-213 | The same for the stream as a value, with anything behind the messages. |
| Datagram.EncodedFrameExactly | libsocket/C++/dgramoverstream.cpp:167-178 | A message is framed as itself if and only if its length fits the prefix. |
| Datagram.DgramOverStream.RcvMsg | libsocket/C++/dgramoverstream.cpp:187-213 | Stores min(length, capacity) bytes, leaves the rest of the buffer alone and the stream at the next frame. |
| Datagram.DgramOverStream.RcvMsgVector | libsocket/C++/dgramoverstream.cpp:129-160 | The same into a vector that is shortened to the message. |
| Datagram.DgramOverStream.ReceiveBytes | libsocket/C++/dgramoverstream.cpp:216-233 | Fills up to 256 bytes however short the reads are. |
| Datagram.DgramOverStream.SndMsg | libsocket/C++/dgramoverstream.cpp:167-178 | Prefix and payload; an empty message is framed although the call fails. |
| Datagram.DgramOverStream.ReceiveHeader | libsocket/C++/dgramoverstream.cpp:240-257 | Takes and decodes the prefix. |
| Datagram.EncodePrefix | libsocket/C++/framing.cpp:41-45 | Stores the four bytes, most significant first. |
| Datagram.DecodePrefix | libsocket/C++/framing.cpp:47-58 | Reads them back as the number. |
| Bytes.EncodeDecode | libsocket/C++/framing.cpp:41-58 | Encoding inverts decoding for every four bytes. |
| Bytes.MostSignificantFirst | libsocket/C++/framing.cpp:41-58 | Of two prefixes the first byte that differs decides which number is smaller. |
| Bytes.ToUint32Exactly | c/qwormhole_lws.cpp:2625 | A length is cut to its remainder by 2^32. |
| PendingFrames.Sender.SendFramesOnStream | scripts/bench.ts:3137-3177 | For every stream, accepted bytes followed by pending frames are all bytes given, other streams are untouched, and nothing stays pending exactly if more than no bytes and all bytes were accepted; calls and bytes handed over are counted, and the most ever pending is kept. |
| PendingFrames.AcceptedExactly | scripts/bench.ts:3145-3163 | An answer that is no number means all bytes; frame by frame, those before the first short answer and as many more as it says. |
| PendingFrames.ConsumeWritten | scripts/bench.ts:3116-3135 | Drops the written bytes across frame borders and keeps the rest frame by frame. |
| PendingFrames.DropBytesDrops | scripts/bench.ts:3116-3135 | What is dropped is exactly the written prefix, empty frames included. |
| PendingFrames.DropBytesExactly | scripts/bench.ts:3116-3135 | The frame in which the cut falls keeps its end, and the frames behind it stay as they are. |
| PendingFrames.DropBytesEmpty | scripts/bench.ts:3122-3127 | Nothing is kept exactly if all was written; what is kept starts with a byte. |
| PendingFrames.Conservation | scripts/bench.ts:3142-3175 | One offer conserves bytes for every accepted amount. |

## Left out

- JSON numbers that are not short integers: `FormatNumber` and `std::stod` are left arbitrary there, so nothing is claimed about printing fractions or exponents.
- The parser's recursion depth: the stack is unbounded in the model.
- What is attached to emitted objects: copies of the remembered handshake, easy.
- Handshakes without length prefixes: the gate exists only in length-prefixed mode.
- `CloseConnection`, RAW_ADOPT beyond the initial flags, RAW_CLOSE, and the events posted to JavaScript: delivery across threads is not modelled, and `EmitDrain` runs outside the lock.
- LwsClient.Connect: failed attempts, a TLS negotiation that turns the socket over to another protocol, and Windows, where a timer looks for the end of a connect instead.
- The receiving and sending halves of a server connection are two classes; they share no field but `closing` and the wake-up flag, which receiving clears.
- Client options, TLS, failed connection attempts and `Recv`: plumbing.
- Sessions of the plugins are entries of a map keyed by identity, and their linked lists are sequences; aliasing through pointers is not captured.
- Mirror: looking up instances by name and their maximum number.
- NewcomerWaits: a writeable callback that libwebsockets delivers to the newcomer unasked ends the wait; whether one comes is not modelled.
- Status: the text of the opening and of an entry, the live counter, and the text of a message in which a peer vanished (it may end in a comma; it is always followed by another message).
- Datagram: `rcvmsg` into a string, which copies up to the first zero byte.
- DgramOverStream.ReceiveHeader: a prefix that arrives in pieces, which the code does not reassemble.
- DgramOverStream.ReceiveBytes: end of file and errors while reading.
- DgramOverStream.RcvMsg: end of file and errors while reading.
- DgramOverStream.RcvMsgVector: end of file and errors while reading.
- DgramOverStream.SndMsg: partial sends.
- Datagram.Synchronised: messages shorter than 2^32, the range of the prefix.
- Bench: the rest of the harness is not modelled.
- TypeScript transports, UI, reports, options and environment variables: not modelled.

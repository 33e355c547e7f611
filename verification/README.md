# Communo: a verified model of its protocol, parser and server

Communo is a small chat and arithmetic server over TLS with a matching command-line client. This project models, in
Dafny, everything of it that computes: the client's number parser and packet encoders, the server's handlers, its
table of connected clients and its main loop, and the client's decoders. It proves what these parts promise to one
another, for every input and over whole runs.

## How the model is organised

| file | what it models |
|---|---|
| Bytes.dfy | bytes, fixed-width integers, little and big endian, two's complement |
| Binary64.dfy | IEEE 754-2019 binary64: roundTiesToEven (section 4.3.1), addition, conversion from integers, bit patterns |
| Numbers.dfy | the ten-way `Number` and its tagged codec |
| NumParser.dfy | text to `Number` and back |
| Protocol.dfy | opcodes, error codes, buffer size |
| Addition.dfy | the addition request and the rounded sum |
| ClientList.dfy | the client-list records, server and client side |
| Chat.dfy | the room table with its inserting lookup, and the shared counter |
| Sockets.dfy | `ClientSocket`, the vector of clients with its moves and erasures, the ledger of SSL handles |
| ServerSpec.dfy | the server as a state machine: handlers, events, runs, passes over the clients, the main loop |
| Server.dfy | the `Server` class; each method is proved against the state machine |
| Invariants.dfy | frame of the handlers, ids and rooms, ownership of SSL handles, meaning of the counter |
| RoomSafety.dfy | protected rooms over whole runs |
| Messaging.dfy | room isolation, private messages, replies that never occur |
| Replies.dfy | what is sent in answer to a packet, byte by byte, and to a new connection |
| Passes.dfy | erasing clients while iterating over them, and the packets that lead to an uncaught exception |
| Cli.dfy | tokens, longest matching command, `add`, `client send-msg`, `chat join` |
| EndToEnd.dfy | the client's text through the server and back into the client's decoders |
| Lifetime.dfy | a `Server` object from construction to destruction |

Code that computes values (the parser, the type tests) is modelled by functions. Code that works step by step is
modelled by methods with loops and by classes whose fields are updated in place: `ChatTable`, `Universe`,
`ClientVector` (an array that grows by moves and erases by move-assignments) and `Server`. Every method of `Server`
states its whole new state as a function of the old one, `Abs() == Spec(old(Abs()), ...)`. The properties are then
proved of these functions and of runs, and `Lifetime.RunServer` carries results about runs back to the object.

## Modelling decisions

* **Doubles.** A finite double is an integer counted in units of 2^-1074, so rounding is defined constructively and
  overflow, subnormals, infinities and NaN are all there. `Binary64.RoundIsNearestEven` states that the definition is
  roundTiesToEven, and `Binary64.IntegerDenoted` and `Binary64.FloatWidened` tie it to the sign, exponent and fraction
  fields of section 3.4; nothing about floating point is assumed. The format is a record, passed as a parameter, only to keep
  its constants symbolic in proofs.
* **Memory behind the buffer.** Handlers may read past a payload, and up to ten bytes past the 4096-byte buffer. The
  model's memory is therefore the buffer and the 20 bytes that follow it in the object (`m_MasterSocket` and
  `m_Adress`). Each read returns what the packet has written over whatever was there before; `accept` and `getpeername`
  store an address in the last 16 bytes.
* **SSL handles** are numbered in the order of their creation; 0 is the null pointer. The ledger records creations,
  frees and closed descriptors. A removed client's descriptor may be closed twice
  (src/server/Server.cpp:171-174 after 520), so exactly-once claims are about handles. About descriptors it is proved
  that, as long as `accept` returns descriptors that no stored client has, stored clients have different descriptors
  and no step but a request to close the server closes one that a client still holds
  (`Invariants.ClosesNoOther`).
* **Sending** appends a packet to a log of pairs (SSL handle, packet). The greeting is logged as one entry that holds
  what the loop over `SSL_write` has emitted.
* **Uncaught exceptions.** `read_number` throws `std::runtime_error` on an unknown type, and the main loop catches only
  the program's own exception class (src/server/Main.cpp:222-227). In the model this sets `terminated`, after which
  nothing happens.
* **The environment** enters through parameters: who connects and how the handshake ends, the results of `SSL_write`
  for the greeting, what `select` and `SSL_read` report, the uptime text, the room-list text (its order is that of an
  unordered map), `strtof`, `strtod` and SHA-256.

## Where the code differs from what one might expect

Each of these is the code's behaviour, stated exactly.

* The comment at src/server/Server.cpp:815 says the client list holds 32-bit ids; the code writes 64 bits
  (src/server/Server.cpp:830-832) and the client reads 64. The model follows the code.
* One malformed addition request ends the process, by an uncaught exception, in the middle of a pass over the clients.
  A packet is malformed if it has at least six bytes, the opcode of an addition request, and in its payload some
  complete records followed by a byte that is no number type (`Passes.Malformed`; 0, 2, 10, 0, 0, 0 is one). An uncaught
  exception follows a received packet if and only if it is malformed (`Passes.ReceiveDies`), ends a pass if and only if
  a ready client sends such a packet (`Passes.PassResult`), and ends a server if and only if one arrives while it is
  open (`Lifetime.RunServer`). The packets of the client's own `add` never are malformed (`EndToEnd.AddIsAnswered`).
* A JOIN of an unknown room is refused, and leaves an empty open room behind under that id (`RoomSafety.JoinOutcome`).
  So a room that was not loaded is in the table, empty and open, if and only if a JOIN has named it
  (`RoomSafety.RoomsAdded`), and every JOIN of it but the first is admitted (`RoomSafety.SecondJoinAdmitted`).
* A forwarded private message ends with the ten bytes that lie behind the sender's packet in server memory, and
  `ERR_EMPTY_MESSAGE` is never sent (`Messaging.PrivateMessage`). The recipient reads at most 4096 bytes at once
  (src/client/Client.cpp:201, 243). If the sender's packet has at most 4086 bytes, the recipient shows the text followed
  by those ten bytes; if it has n more, by only 10 - n of them, and the other n, which lie behind the server's buffer,
  are left for its next read, which takes the first two for an opcode if there are two
  (`EndToEnd.PrivateMessageEndToEnd`, `EndToEnd.LongestMessage`).
* Printing a parsed decimal numeral and parsing it again preserves the type if and only if the numeral is not a
  negative zero (`NumParser.ParsePrintParse`).
* Behind a hexadecimal prefix an inner minus sign is accepted under the suffixes L and LL, and only there
  (`NumParser.Candidates`, `NumParser.ParserExact`).
* A hexadecimal numeral with the digit e, or one without suffix that ends in the digit f, is taken for floating-point
  text and never becomes an integer; all other numerals take the integer path (`NumParser.IntegerPathIff`).
* The int16 and int32 branches at src/common/NumParser.cpp:180-187, and the second ones for uint16 and uint32 at
  183-190, are never taken (`NumParser.DeadBranches`).
* `client send-msg` cannot address the ids from 2^32 to 2^63 - 1 by a numeral without suffix, because such numerals
  parse to the signed 64-bit type; with a suffix that contains U it can (`Cli.MessageAccepts`).
* A decoder that gets an empty client-list payload reads the string's terminating NUL, and takes it for `ERR_OK`
  (`ClientList.ErrorByte`).

## Model

| member | source | states |
|---|---|---|
| Bytes.LittleEndianRoundTrip | src/common/NumParser.cpp:316 | an integer copied to its host bytes is read back, for every width that holds it |
| Bytes.FromLittleEndianRoundTrip | src/common/NumParser.cpp:384 | every byte string is the host bytes of the integer read from it |
| Bytes.BigEndianRoundTrip | src/server/Server.cpp:830-843 | `htobe64` and `htons` are undone by `be64toh` and `ntohs` |
| Bytes.Digits | src/server/Server.cpp:830-843 | host order begins with the least digit to the base 256, network order with the greatest |
| Bytes.Signed | src/common/NumParser.cpp:325-331 | two's complement: the signed reading of bytes lies in the signed range and has these very bytes |
| Binary64.RoundIsNearestEven | src/server/Server.cpp:771-774 | rounding yields a representable number, no representable number is nearer, and a tie goes to the even significand |
| Binary64.RoundError | src/server/Server.cpp:771-774 | rounding a number below 2^(53+j) errs by at most 2^(j-1) |
| Binary64.RoundUnit | src/server/Server.cpp:771-774 | rounding does not depend on the unit in which a number is counted |
| Binary64.RoundInteger | src/server/Server.cpp:771-772 | converting an integer below 2^75 to double rounds it to 53 bits and neither overflows nor loses low bits to the format |
| Binary64.AddIsDouble | src/server/Server.cpp:774 | the sum of two doubles is a double, infinities and NaN included |
| Binary64.BitsRoundTrip | src/server/Server.cpp:783 | the 64 bits of a double determine it |
| Binary64.IntegerDenoted | src/server/Server.cpp:771-783 | the 64 bits of every representable integer up to 2^75 have its sign, the exponent with bias 1023, and its significand without the leading one |
| Binary64.SmallIntegerBits | src/server/Server.cpp:771-783 | for 2^k <= abs(x) < 2^(k+1) and k <= 52 the bits are the sign, 1023 + k, and (abs(x) - 2^k) * 2^(52-k) |
| Binary64.BitsOfThree | src/server/Server.cpp:783 | the bits of 3 are 0x4008000000000000 |
| Binary64.DenotedOnce | src/server/Server.cpp:783 | different integers have different bits |
| Binary64.FloatWidened | src/server/Server.cpp:771-772 | a float is widened to the double with the same sign, the exponent increased by 896 and the fraction followed by 29 zeros |
| Binary64.AddIsNearest | src/server/Server.cpp:774 | no representable number is nearer to the exact sum of two finite doubles than the result, which is infinite if and only if that number is too great |
| Binary64.AddInfinite | src/server/Server.cpp:774 | which sums with an infinity or NaN give NaN, and that infinities otherwise stay |
| Numbers.AppendNumber | src/common/NumParser.cpp:309-319 | keeps what was there and appends bytes from which, with the type, exactly the number is read back |
| Numbers.ReadNumber | src/common/NumParser.cpp:321-408 | throws if and only if the type is unknown, leaving the offset; otherwise returns the number of that type whose bytes are there, and advances by its size |
| Numbers.NumberRoundTrip | src/common/NumParser.cpp:273-408 | a number is read back from its type and bytes, for all ten types |
| Numbers.BytesRoundTrip | src/common/NumParser.cpp:309-408 | a number read from bytes is written as the same bytes |
| Numbers.DecodeEncoded | src/server/Server.cpp:757-764 | reading an encoded sequence returns the same numbers with the same types and consumes exactly its bytes, whatever lies before and after |
| Numbers.EncodeInjective | src/client/Client.cpp:612-620 | different sequences of numbers have different encodings |
| Numbers.EncodeExample | src/client/Client.cpp:612-620 | the bytes of a request for -1, 258 and 1.0f |
| Numbers.DecodeArbitrary | src/server/Server.cpp:757-775 | on arbitrary bytes the loop ends between the end of the payload and eight bytes later, having read what re-encodes to the bytes passed, and ends exactly at the end if and only if the payload is a concatenation of records |
| Numbers.FailsIff | src/server/Server.cpp:757-764 | the loop throws if and only if some complete records are followed, inside the payload, by a byte that is no number type |
| Numbers.ReadsOnlyBelow | src/server/Server.cpp:757-764 | no byte at or beyond payload size + 8 influences the loop |
| NumParser.SuffixOf | src/common/NumParser.cpp:47-73 | each of the suffixes, in either case, is removed whole from a text that does not itself end in a suffix letter |
| NumParser.DigitOrder | src/common/NumParser.cpp:9-19 | the sixteen digits and their values, in both cases |
| NumParser.ParserExact | src/common/NumParser.cpp:76-231 | a numeral on the integer path, of either base and with any suffix, is accepted if and only if one of its candidate types holds its value; then the value survives the narrowing cast and the type is the first candidate that holds it; otherwise it is out of range |
| NumParser.IntegerPathIff | src/common/NumParser.cpp:204-231 | a numeral takes the integer path unless it has the hexadecimal digit e, or has no suffix and ends in the hexadecimal digit f; those never become integers |
| NumParser.UnsignedTexts | src/common/NumParser.cpp:97-196 | exactly which numerals, by sign, suffix and range, are accepted with an unsigned type, and which as uint8 |
| NumParser.DeadBranches | src/common/NumParser.cpp:171-195 | the ladder for non-negative numerals equals the one without the int16, int32 and second uint16 and uint32 branches |
| NumParser.AcceptedIsText | src/common/NumParser.cpp:76-231 | nothing but numerals with an optional prefix and suffix is accepted on the integer path |
| NumParser.Refused | src/common/NumParser.cpp:97-196 | whatever else is on the integer path is out of range, and the empty text an invalid argument |
| NumParser.DecimalExact | src/common/NumParser.cpp:142-196 | an unsuffixed decimal numeral is accepted exactly from -2^63 to 2^64 - 1, as the first of int8, int16, int32, int64 with a minus sign and of uint8, uint16, uint32, int64, uint64 without one |
| NumParser.PrintParse | src/common/NumParser.cpp:41-44 | printing any integer number and parsing it gives its value back, in the narrowest candidate type |
| NumParser.ParsePrintParse | src/common/NumParser.cpp:199-231 | on the results of decimal numerals, printing and parsing is the identity, type included, if and only if the numeral is no negative zero |
| Addition.SendAdditionRequest | src/client/Client.cpp:596-630 | sends if and only if there are at least two numbers and 2 bytes and those of their records are at most 4096; then the opcode and the encoding of all numbers |
| Addition.SentIff | src/client/Client.cpp:600-627 | the same condition for the packet, and that any 2 to 454 numbers are sent |
| Addition.AdditionErrorBound | src/server/Server.cpp:755-775 | for any integers the client agrees to send (at most 2047), the double has the bits of an integer within 2^21 + 2^10 of the exact sum for each of them |
| Addition.AdditionExact | src/server/Server.cpp:755-775 | the double has the bits of the exact sum when the absolute values sum to at most 2^53 |
| Addition.NarrowAdditionExact | src/server/Server.cpp:755-775 | any 8, 16 and 32-bit integers that fit in a packet give the bits of their exact sum |
| Addition.PacketIsRead | src/server/Server.cpp:605-622 | every packet the client sends passes the minimum size, fits the buffer, and is read back number by number |
| Addition.SumSurvivesReply | src/server/Server.cpp:779-783 | the eight bytes of the reply determine the sum, for numbers of all ten types |
| Addition.DoubleKept | src/server/Server.cpp:771-772 | a number of type double stands for the double that its bits are |
| Addition.FloatKept | src/server/Server.cpp:771-772 | a number of type float stands for the double it is widened to |
| Addition.SumOfMore | src/server/Server.cpp:774 | the sum of more numbers is the last one added to the sum of those before |
| ClientList.DecodeClientList | src/client/Client.cpp:322-387 | the decoding loop terminates on any payload, reads no byte behind it, and returns the complete records up to the first incomplete one, or none when the error byte is set |
| ClientList.ListRoundTrip | src/server/Server.cpp:825-865 | within 4096 bytes the client recovers exactly the server's list and the 16-bit length loses nothing; above, the packet is only the refusal |
| ClientList.TruncationTolerance | src/client/Client.cpp:347-379 | a list packet cut anywhere behind its error byte decodes to exactly the records wholly contained in it |
| ClientList.WhollyWithinIsLongest | src/client/Client.cpp:347-379 | these records are the longest prefix of the list that fits in the bytes that are left |
| ClientList.DecodedIsPrefix | src/client/Client.cpp:347-379 | on arbitrary bytes, what was decoded re-encodes to a prefix of the payload |
| Chat.ChatTable.CheckRoomID | src/server/Chat.h:37-40 | a room is found if and only if some 32-byte hash would be admitted by a JOIN of it |
| Chat.ChatTable.IsRoomProtected | src/server/Chat.h:42-45 | whether the room exists with a password hash; inserts an empty open room for an unknown id and alters no other |
| Chat.ChatTable.CheckPasswordHash | src/server/Chat.cpp:30-44 | compares the 32 bytes at the stored string with the hash, inserting an unknown room; for a protected room this is whether the table admits a JOIN with the hash |
| Messaging.LoadedNameReported | src/server/Chat.h:32-35 | after any run with fewer than 2^64 accepted connections, a client in a loaded room that asks for room info is told the name that was loaded for it |
| Chat.Universe.IncrementCounter | src/server/Universe.h:14 | the counter modulo 2^64 |
| Sockets.ClientVector.MoveAssign | src/server/Server.cpp:162-194 | the target's handle is freed and its descriptor closed, the source is emptied, and self-assignment changes nothing |
| Sockets.ClientVector.PushBack | src/server/Server.cpp:463 | appends the client, growing by moves if need be, without freeing or closing anything; the moved-from client is left empty |
| Sockets.ClientVector.ShiftDown | src/server/Server.cpp:522 | the move-assignments of an erasure release exactly the erased client, once, however many clients follow |
| Sockets.ClientVector.Erase | src/server/Server.cpp:522 | removes exactly the i-th client, keeps the order of the others, and frees its handle |
| Sockets.ClientVector.Destroy | src/server/Server.h:44-51 | frees the handles of all stored clients |
| ServerClass.Server.constructor | src/server/Server.cpp:196-214 | a new server is not started, sends no greetings, and has no clients, no rooms and no counts |
| ServerClass.Server.SendMOTD | src/server/Server.cpp:366-403 | what goes out is a prefix of the greeting, and the whole of it if and only if nothing remains |
| ServerSpec.CString | src/server/Server.h:89-92 | what is sent of a text is its longest prefix without a NUL |
| ServerClass.Server.SendToAll | src/server/Server.cpp:1077-1087 | sends one copy to each client that hears the room, in vector order |
| ServerClass.Server.CallHandlerAdd | src/server/Server.cpp:750-787 | the loop computes the left-to-right rounded sum of the numbers the decoder reads and replies with its bits, or dies of an unknown type |
| ServerClass.Server.BuildClientList | src/server/Server.cpp:827-845 | the loop emits the records of all clients in order, the caller's marked |
| ServerClass.Server.CallHandlerGetClientList | src/server/Server.cpp:810-866 | sends the list packet or the refusal |
| ServerClass.Server.CallHandlerMsgToClient | src/server/Server.cpp:868-932 | refines the state machine's private message, including the search for the first client with the id |
| ServerClass.Server.CallHandlerGetRoominfo | src/server/Server.cpp:988-1007 | refines the state machine's room info; the lookup of the name never fails |
| ServerClass.Server.CallHandlerJoinRoom | src/server/Server.cpp:1009-1053 | the two tests and the inserting lookup amount to: joined if and only if the table admits the hash |
| ServerClass.Server.CallHandlerSay | src/server/Server.cpp:1055-1103 | acknowledges and distributes, or refuses |
| ServerClass.Server.CallHandler | src/server/Server.cpp:580-737 | dispatch by opcode with the size tests of each request |
| ServerClass.Server.HandleNewConnections | src/server/Server.cpp:435-487 | the fate of the client, of its handle and of its descriptor for every outcome of the handshake |
| ServerClass.Server.Visit | src/server/Server.cpp:492-547 | what the body of the loop does to one client and where the iteration goes on |
| ServerClass.Server.ProcessRequests | src/server/Server.cpp:489-549 | erasing while iterating, the pass terminates and is the run of the events that its inputs cause |
| ServerClass.Server.ClosingRequested | src/server/Server.h:103-112 | closes every client's descriptor, in order |
| ServerClass.Server.Iterate | src/server/Main.cpp:212-245 | one round of the main loop is a run of the state machine |
| ServerClass.Server.Serve | src/server/Main.cpp:210-246 | the main loop is a run of the state machine and stops when the server is closed or the process has died |
| ServerClass.AddLoopStep | src/server/Server.cpp:757-775 | one iteration of the addition loop preserves the final sum |
| ServerSpec.FindCorrect | src/server/Server.cpp:885-895 | the search returns the first client with the id, or none exists |
| ServerSpec.ExecuteConcat | src/server/Main.cpp:210-246 | runs compose |
| ServerSpec.PassStep | src/server/Server.cpp:492-548 | a pass is the turn of one client followed by the pass over the rest, from the position where erasing leaves the iterator |
| Invariants.DispatchFrame | src/server/Server.cpp:580-737 | no handler changes the number, order or identity of the clients; only the caller's membership may change, and only by an admitted JOIN; existing rooms are not altered; the counter changes only by INCREMENT |
| Invariants.ReceiveFrame | src/server/Server.cpp:503-544 | the same for everything that one received packet causes |
| Invariants.StepInv | src/server/Server.cpp:435-549 | every step keeps: ids strictly increasing and below the counter, every client past its handshake, every joined room in the table |
| Invariants.RunInv | src/server/Server.cpp:461-467 | this holds in every state reachable with fewer than 2^64 accepted connections |
| Invariants.StepOwnership | src/server/Server.cpp:146-194 | every step keeps: each handle created so far was freed once or is held by exactly one client |
| Invariants.HandshakeOwnership | src/server/Server.cpp:45-144 | the handle of a successful handshake belongs to the new client, that of a failed one has been freed |
| Invariants.ConnectOutcome | src/server/Server.cpp:457-486 | a failed handshake leaves no client, no unfreed handle and no open descriptor behind; a successful one frees and closes nothing and appends a client with the new descriptor, handle and id, in no room; each connection uses up an id |
| Invariants.RunOwnership | src/server/Server.cpp:461-484 | the ownership invariant holds after every run |
| Invariants.HeldHandles | src/server/Server.cpp:162-194 | held handles are not null and no two clients share one |
| Invariants.DropReleasesOnlyItself | src/server/Server.cpp:520-523 | removing a client frees its own handle and no other, and closes the number of its own descriptor and no other, twice if other clients follow it and once if not |
| Invariants.RunDistinct | src/server/Server.cpp:441-463 | stored clients have different descriptors after every run in which `accept` returns descriptors that are not in use |
| Invariants.ClosesNoOther | src/server/Server.cpp:171-174 | in such a run no step but a request to close the server closes a descriptor that some client still holds afterwards |
| Invariants.ClosingCloses | src/server/Server.h:103-112 | a request to close the server closes the descriptor of every client, in order, and removes nobody |
| Invariants.EveryHandleFreedOnce | src/server/Server.h:44-51 | over any run that ends with destruction every handle ever created is freed exactly once and nothing else is freed |
| Invariants.CounterRefinement | src/server/Universe.h:7-18 | after every run the counter is the number of dispatched INCREMENT requests modulo 2^64 |
| RoomSafety.RoomsKept | src/server/Chat.h:42-45 | no run alters a room that is in the table, although lookups add rooms |
| RoomSafety.RoomsAdded | src/server/Chat.h:42-45 | after any run, a room that was not loaded is in the table if and only if an earlier dispatched JOIN named it, and then it is empty and open |
| RoomSafety.SecondJoinAdmitted | src/server/Server.cpp:1019-1031 | a JOIN of a room that was not loaded is admitted, with any hash, if and only if an earlier dispatched JOIN named the room |
| RoomSafety.StepMembership | src/server/Server.cpp:1028-1031 | whoever is in a room after a step was in it before or has just been admitted by a JOIN of its own |
| RoomSafety.ProtectedRoomSafety | src/server/Server.cpp:1009-1053 | in every reachable state, a client in a loaded protected room has submitted, in an earlier JOIN of its own, exactly the hash stored for it |
| RoomSafety.JoinOutcome | src/server/Server.cpp:1019-1052 | a JOIN changes the caller's membership if and only if the room is known and open or has this hash; a refused one leaves all clients as they were, and an unknown room stays behind, empty and open; the bytes of the reply name the room or the reason |
| Messaging.CopiesAreDelivery | src/server/Server.cpp:1077-1087 | the copies go once each, in vector order, to exactly the clients that hear the room |
| Messaging.SayReachesRoom | src/server/Server.cpp:1055-1088 | a member's SAY is acknowledged first and then reaches exactly the members of its room, itself included, with the exact text |
| Messaging.SayIsDelivered | src/server/Server.cpp:713-725 | the same of a received packet and its text; a sender that is in no room is told so, and nobody else hears of it |
| Messaging.RoomIsolation | src/server/Server.cpp:1055-1103 | over any run, every SMSG_SAY goes to exactly one stored client and carries the text of a SAY whose sender shares that client's room at this moment |
| Messaging.StepNeverInvalidRoom | src/server/Server.cpp:1089-1094 | no step from a state with the invariant answers SAY with ERR_INVALID_ROOM |
| Messaging.NeverInvalidRoom | src/server/Server.cpp:1089-1102 | no run with fewer than 2^64 accepted connections does |
| Messaging.InfoNeverInvalid | src/server/Server.cpp:988-1007 | room info never says "Invalid room" |
| Messaging.PrivateMessage | src/server/Server.cpp:868-932 | the id of another connected client is answered with ERR_OK, and this one client and no other is sent the sender's id, the text and ten further bytes of memory; the sender's own id is answered with ERR_MSG_TO_SELF and one that no client has with ERR_NO_CLIENT_FOUND, and then nobody else is sent anything |
| Replies.MessageRefused | src/server/Server.cpp:881-913 | the bytes of these two refusals, of a received packet |
| Replies.PlainReplies | src/server/Server.cpp:660-689 | the bytes of the answers to PING, UPTIME and GET_CHAT_ROOMS, and that INCREMENT is not answered |
| Replies.InfoReply | src/server/Server.cpp:988-1007 | the three answers to GET_ROOM_INFO, by membership and table |
| Replies.UnknownReply | src/server/Server.cpp:726-735 | the answer to a packet with any other opcode |
| Replies.InvalidReply | src/server/Server.cpp:528-544 | the answer to a packet of one byte |
| Replies.WrongSizeIgnored | src/server/Server.cpp:605-712 | additions of less than six bytes, messages of less than ten and JOINs of other than 35 change nothing but the buffer |
| Replies.EmittedIsGranted | src/server/Server.cpp:379-397 | the write loop gets out the sum of the positive results before the first other one, up to the whole |
| Replies.ClientGreeted | src/server/Server.cpp:461-476 | an accepted client, and nobody else, is greeted if greetings are on, with the whole text if and only if so much is granted |
| Passes.AddThrows | src/server/Server.cpp:757-764 | the addition loop throws on a received request if and only if it is malformed, whatever was in memory |
| Passes.ReceiveDies | src/server/Server.cpp:580-737 | a received packet leads to an uncaught exception if and only if it is a malformed addition request |
| Passes.MalformedPacket | src/common/NumParser.cpp:405-406 | the packet 0, 2, 10, 0, 0, 0 is malformed |
| Passes.PassResult | src/server/Server.cpp:489-549 | a pass ends by an uncaught exception if and only if a ready client sends a malformed packet; unless one does it removes exactly the clients whose read failed, keeps the others in order and handles each ready survivor exactly once; if one does, this holds up to the first such client, and the others are as they were |
| Passes.ClosingPass | src/server/Server.cpp:496-501 | a pass while closing empties the vector |
| Cli.Tokenize | src/client/Main.cpp:101-111 | the loop splits the line into its maximal words |
| Cli.TokensOfSpaced | src/client/Main.cpp:101-111 | words with any white space around them, and some between them, are split off exactly |
| Cli.LineIsSpaced | src/client/Main.cpp:101-111 | every line consists of its words and white space in this way |
| Cli.SplitJoined | src/client/Main.cpp:61-69 | joining words with spaces and splitting again gives them back, so joining is injective |
| Cli.JoinIsSpaced | src/client/Main.cpp:61-69 | joining puts exactly one space between each two words |
| Cli.FindCommand | src/client/Main.cpp:55-79 | if some prefix of the tokens spells a command, the nested loops return the longest such, which is a command, and the remaining tokens; if none does, no command |
| Cli.UniqueSplit | src/client/Main.cpp:59-79 | no other prefix spells the same command |
| Cli.Interpret | src/client/Main.cpp:45-89 | a line is ignored if and only if it has no tokens, quits if and only if the first is exit or quit, and otherwise runs the longest command a prefix spells, or is unknown if and only if no prefix spells one |
| Cli.AddCommand | src/client/Main.cpp:150-174 | the loop over the arguments sends the packet that Cli.AddSends describes |
| Cli.AddSends | src/client/Main.cpp:150-174 | a packet is sent if and only if there are at least two arguments, all parse, and their records fit, as any 2 to 454 do; it holds the numbers in the order of the arguments |
| Cli.SendMsgCommand | src/client/Main.cpp:231-269 | the packet with the id and the words, each followed by a space |
| Cli.SpacedIsJoin | src/client/Main.cpp:261-263 | the text of a message is its words joined, with a space at the end |
| Cli.MessageAccepts | src/client/Main.cpp:242-268 | for every numeral on the integer path: which ids are addressed, by sign, suffix and range, and with which packet |
| Cli.MessageAcceptsOnly | src/client/Main.cpp:242-268 | no other text addresses a client |
| Cli.JoinAccepts | src/client/Main.cpp:287-315 | with or without a password, a numeral on the integer path names a room if and only if it has no minus sign, no suffix L or LL, and is at most 255 |
| Cli.JoinAcceptsOnly | src/client/Main.cpp:287-315 | no other text names a room |
| EndToEnd.AddIsAnswered | src/server/Server.cpp:750-787 | every packet of `add` is answered, to the caller alone, with the opcode and the bits of the sum of the numbers sent, and never makes the server throw |
| EndToEnd.AdditionEndToEnd | src/client/Main.cpp:150-174 | from the text of the numerals, in either base, with or without sign and suffix, to the bits the client reads: whenever all are accepted and fit, a request is sent and answered with the sign, exponent and fraction of an integer, exactly the mathematical sum under either exactness condition, and within 2^21 + 2^10 for each number in general |
| EndToEnd.IntegersAreSpelled | src/client/Main.cpp:160-164 | arguments that parse to integers are numerals of these values, so the end-to-end result is about every request for integers |
| EndToEnd.TextsComeBack | src/server/Server.cpp:739-808 | an echoed text returns to its sender alone; a broadcast goes once to every client, the sender included, in vector order |
| EndToEnd.ClientListEndToEnd | src/client/Client.cpp:322-387 | the client that asks reads a record for each connected client, in order, with its id and its name, its own marked "(you)"; or, if that would take more than 4096 bytes, the refusal; from a packet that one read takes whole |
| EndToEnd.PrivateMessageEndToEnd | src/client/Client.cpp:199-275 | the addressed client, and it alone, reads with one 4096-byte read the sender's id, the full text, and those of the ten bytes behind the sender's packet that lie in the server's buffer, all ten if and only if that packet has at most 4086 bytes; the rest, from behind the buffer, is left for the next read |
| EndToEnd.LongestMessage | src/client/Client.cpp:266-275 | behind a packet of 4096 bytes nothing follows the text, and the next read takes its opcode from the two bytes behind the server's buffer |
| EndToEnd.JoinEndToEnd | src/client/Client.cpp:681-699 | a password opens a protected room if and only if its digest is the stored hash |
| EndToEnd.CounterReported | src/server/Server.cpp:970-981 | GET_COUNTER is answered with SMSG_COUNTER and the number of INCREMENT requests dispatched during the run, modulo 2^64 |
| Lifetime.ServeAccepts | src/server/Main.cpp:210-246 | at most one connection is accepted in each round of the main loop |
| Lifetime.ServeDies | src/server/Main.cpp:210-246 | the main loop ends by an uncaught exception if and only if a client sends a malformed packet in a round before the closing one has passed |
| Lifetime.RunServer | src/server/Main.cpp:154-250 | an uncaught exception ends the server if and only if a malformed packet arrives while it is open; otherwise it has freed every handle it created exactly once and holds no client; it has answered no SAY with ERR_INVALID_ROOM in fewer than 2^64 rounds, and its loaded rooms are as they were |

## Left out

- Sockets, `select`, TLS internals, certificates and handshake deadlines: foreign calls; only their outcomes enter, as parameters.
- Delivery after `SSL_write`: a send is an entry in the log, so a failed or partial write of a reply other than the greeting is not distinguished.
- Signals: SIGPIPE keeps its default action (src/server/Main.cpp:50-56), so writing to a client that has reset its connection can end the process as well; here a process ends only by an uncaught exception.
- How often a descriptor is closed: the code does not support a claim of exactly once; `Invariants.DropReleasesOnlyItself` and `Invariants.ClosesNoOther` say what holds.
- SHA-256: an arbitrary function to 32 bytes, so nothing is said about passwords with equal digests.
- Loading rooms from SQLite: an arbitrary initial table with empty or 32-byte hashes, as the schema demands (sql/chat_rooms.sql:2-10); a hash cut short at a NUL while loading is not modelled.
- Text of floats and doubles: `strtof`, `strtod` and `std::to_string` on them are parameters; the codec and the sum carry their bits faithfully.
- NaN payloads and the sign of a NaN sum: replies use the quiet default NaN, since which one results is up to the machine.
- Big-endian hosts: numbers and private-message ids are copied raw, and both ends are taken to be little endian.
- Reads whose size exceeds 4096 bytes: a longer packet reaches the server as several reads, each of which is one event of the model.
- Bytes behind `m_Adress`: no handler reads that far.
- The failure of start-up (`InitSSL` of the server, `InitSocket`, `InitEntities`): `Lifetime.RunServer` is about a server that starts up.
- Logging, daemon mode, command-line options, uptime formatting and console output: no behaviour of the protocol depends on them.
- The text assembled for echo, broadcast and chat say by the client, and `client set-username`, which does nothing: only easy members.

# NET_Tasks chat and tic-tac-toe protocol, modelled in Dafny

NET_Tasks holds two TCP chat systems that share one byte-level protocol, plus a small hexadecimal
decoder:

- `Sockets/`: a chat server and client for nicknames, broadcasts, private messages, the user list and files.
- `SocketsUDP/`: the same protocol, extended with objects and a tic-tac-toe game that the server coordinates.
- `hexToDecimal.cpp`: turns whitespace-separated hexadecimal words into characters.

Every packet is a one-octet type tag followed by fixed-layout fields. Four field forms occur:

- short fields: a 2-octet big-endian length, then the octets;
- long fields: a 3-octet big-endian length, then the octets;
- a 4-octet object size;
- a 10-octet file size.

The project models the following, module by module:

- `Bytes`, `Wire`: octets, big-endian numbers, the C-string cut (`string(buf)` stops at the first NUL), and the `recv` primitives the handlers use.
- `Frames`: every `build*` function of both servers and every packet the clients send.
- `Requests`, `RequestLaws`: the servers' request readers and the client→server round trips.
- `Registry`: the `clients` map and its routing as a class. `sendAll` and `sendToClient` append to an outbox of `(socket, frame)` deliveries, so "who received what" can be stated.
- `ChatServer`: one `Sockets/server.cpp` session. It covers registration, the join and leave broadcasts, `m`/`t`/`l`/`x`/`f` and the "not found" errors.
- `TicTacToe`: `checkWinner`, `checkIsPositionUsed`, `initializeGame` and the move rules, with the invariant every stored game keeps.
- `GameSession`, `GameServer`: the `SocketsUDP/server.cpp` session.
  - `GameSession` holds the specification functions and lemmas.
  - The `GameServer` class keeps the `clients` registry and the `activeGames` map. Its fields are updated in place by the accept, move and cleanup code.
- `UdpClient`, `StreamClient`: the two clients' frame readers, including the `parseListResponse` cursor loop over an array, the `_dest` rename, the accept predicate and the result codes.
- `Padding`: `completePacket`.
- `HexText`: `hexToText`, as the word loop it is.

The model follows the code where it differs from the intent:

- The responder who accepts an invitation becomes `player1`, plays `X` and moves first.
- Sends to unknown users are dropped by the game server. The chat server answers them with an `E` frame.
- The game server's `f` handler returns without cleanup when a receive fails in its size or data loop (see Findings).

## Model

| member | source | states |
|---|---|---|
| Bytes.BigEndianRoundTrip | SocketsUDP/server.cpp:99-110 | A number below 256^w written as w big-endian octets (the `htons` and hand-built 3-octet lengths) reads back as the same number |
| Bytes.CutAtNul | Sockets/server.cpp:217-220 | `string(buf)` keeps a prefix of the octets, contains no NUL, and stops exactly at the first NUL when it stops early |
| Bytes.CutAtNulKeepsPlainText | Sockets/server.cpp:217-220 | Text without a NUL octet survives the C-string conversion unchanged |
| Bytes.CutAtNulAtFirstNul | Sockets/client.cpp:76-77 | A buffer printed as a C string shows what precedes its first NUL, whatever follows it |
| Wire.RecvOnce | SocketsUDP/server.cpp:278-289 | A checked `recv(n)` succeeds exactly when 0 < n and n octets remain; it then splits the input into the n octets and the rest, otherwise the session ends |
| Wire.RecvExactly | SocketsUDP/server.cpp:414-436 | A receive loop for n octets succeeds exactly when n octets remain (n = 0 included) and splits the input there |
| Wire.RecvNameRoundTrip | SocketsUDP/server.cpp:282-291 | A non-empty short field, read with checked `recv`s and `string(buf)`, yields the name cut at its first NUL and leaves the rest of the input |
| Wire.RecvEmptyNameEnds | SocketsUDP/server.cpp:289 | An empty name makes `recv(…, 0)` return 0, which ends the session |
| Wire.RecvLongRoundTrip | SocketsUDP/server.cpp:322-328 | A non-empty long field read with checked `recv`s yields its octets unchanged |
| Wire.RecvEmptyLongEnds | SocketsUDP/server.cpp:328 | An empty text makes the checked receive of its body end the session |
| Wire.ReadShortRoundTrip | SocketsUDP/client.cpp:308-353 | A short field read with unchecked receives yields its octets, and the name form yields them cut at the first NUL |
| Wire.ReadLongRoundTrip | SocketsUDP/client.cpp:308-353 | A long field read with unchecked receives yields its octets |
| Wire.ShiftIn64IsValueMod | SocketsUDP/server.cpp:422-425 | Shifting ten octets into a `uint64_t` keeps their big-endian value modulo 2^64 |
| Wire.FileSizeFieldDecodes | SocketsUDP/server.cpp:422-425 | The decoded 10-octet size is the big-endian value of its last eight octets, whatever the first two are |
| Wire.DecodeFileSize | SocketsUDP/server.cpp:422-425 | The size-decoding loop returns the value of the last eight octets, a 64-bit number |
| Wire.FileSizeRoundTrip | SocketsUDP/server.cpp:162-164 | Every 64-bit `file_size` written by `buildFile`/`sendFile` decodes to itself, for any two undefined high octets |
| Ordering.LeastExists | Sockets/server.cpp:115-129 | Every non-empty set of keys has a least element under a strict total order |
| Ordering.LeastUnique | Sockets/server.cpp:115-129 | That least element is unique |
| Ordering.Ascending | Sockets/server.cpp:115-129 | The iteration order of a `std::map`: the same keys, each once, strictly ascending |
| Ordering.LexLessIsStrictTotal | Sockets/server.cpp:115-129 | `std::string` comparison (octet-wise, a prefix first) is irreflexive, transitive and total |
| Ordering.PairLessIsStrictTotal | SocketsUDP/server.cpp:581-589 | The `std::pair` ordering of game keys is irreflexive, transitive and total |
| Ordering.SortedNames | Sockets/server.cpp:118-124 | Walking `clients` visits every registered name once, in ascending order |
| Ordering.SortedPairs | SocketsUDP/server.cpp:581-589 | Walking `activeGames` visits every key once, in ascending pair order |
| Registry.FanoutRecipients | Sockets/server.cpp:56-64 | Walking names with `sendAll` sends the same frame to each walked socket that is not `except`, and to nothing else |
| Registry.FanoutLength | Sockets/server.cpp:56-64 | The walk sends exactly one frame per walked name whose socket is not `except` |
| Registry.SendAllReaches | Sockets/server.cpp:56-64 | `sendAll(data, except)` reaches every registered socket other than `except` and no other socket |
| Registry.BroadcastWithoutSenderReachesAll | Sockets/server.cpp:202-204 | With the default `-1`, the join broadcast also reaches the joiner |
| Registry.Registry.constructor | Sockets/server.cpp:19 | The registry starts with no clients and nothing sent |
| Registry.Registry.Register | Sockets/server.cpp:189-199 | Succeeds exactly when the name is free and then adds exactly that name; a taken name sends `E` "Nickname already taken" to the socket and changes no entry |
| Registry.Registry.Unregister | Sockets/server.cpp:361-364 | Erases exactly that name and sends nothing |
| Registry.Registry.Send | Sockets/server.cpp:273 | One `send` appends one delivery to the outbox |
| Registry.Registry.SendToClient | Sockets/server.cpp:67-73 | Sends to the destination's socket exactly when it is registered; otherwise sends nothing |
| Registry.Registry.SendAll | Sockets/server.cpp:56-64 | Its loop sends what `sendAll` specifies over the ascending walk of `clients` |
| Registry.Registry.SendWalk | Sockets/server.cpp:58-63 | The loop's sends equal the fan-out over the walked names |
| Registry.Registry.BuildList | Sockets/server.cpp:115-129 | `buildList` gives the `L` frame of the registered names in ascending order |
| Registry.Registry.ListFields | Sockets/server.cpp:118-124 | The loop concatenates one short field per name, in order |
| ChatServer.ChatEffectRecipients | Sockets/server.cpp:211-281 | `m` sends the `M` frame of the sender and text to every other client and never to the sender. `t` sends exactly one frame: the `T` frame of sender and text to the registered destination, or `E` "User … not found" to the sender; `f` does the same with the `F` frame of sender, file name and octets. `x` sends exactly `X` to the sender |
| ChatServer.ChatServeOutcome | Sockets/server.cpp:161-372 | A bad first request registers nobody and sends nothing. A taken name gets only the error. Otherwise the joiner hears its own join broadcast, every client registered before it hears the leave broadcast, and the name is gone afterwards |
| ChatServer.Handle | Sockets/server.cpp:211-358 | Handling one request sends what the chat effect specifies and leaves the registry's entries alone |
| ChatServer.RequestLoop | Sockets/server.cpp:206-359 | The request loop sends what the session function specifies for the remaining input |
| ChatServer.Serve | Sockets/server.cpp:161-372 | A whole connection leaves the registry and outbox as the session specification says, and keeps the registry valid |
| GameServer.GameServer.constructor | SocketsUDP/server.cpp:199 | The server starts with no clients, no games and nothing sent |
| GameServer.GameServer.FindGame | SocketsUDP/server.cpp:581-589 | The search loop returns the first active game, in key order, that involves the mover |
| GameServer.GameServer.HandleReply | SocketsUDP/server.cpp:520-560 | The `j` handler updates games and sends as the reply specification says, keeping every game valid |
| GameServer.GameServer.HandleMove | SocketsUDP/server.cpp:561-646 | The `P` handler updates games and sends as the move specification says, keeping every game valid |
| GameServer.GameServer.PlayMove | SocketsUDP/server.cpp:597-645 | The checks and updates after the game is found change the games map in place exactly as the play specification says |
| GameServer.GameServer.LeaveGames | SocketsUDP/server.cpp:654-672 | The disconnect cleanup removes and notifies as the leave specification says |
| GameServer.GameServer.CollectInvolved | SocketsUDP/server.cpp:657-662 | Collects, in key order, exactly the keys of games involving the player |
| GameServer.GameServer.RemoveGames | SocketsUDP/server.cpp:663-671 | Erases exactly the collected keys and sends `W3` to each registered opponent, in order |
| GameServer.GameServer.Handle | SocketsUDP/server.cpp:320-646 | One request changes games and outbox as the per-request specification says |
| GameServer.GameServer.Relay | SocketsUDP/server.cpp:320-519 | The chat, file, object and invitation requests change no game and send what the relay specification says |
| GameServer.GameServer.Serve | SocketsUDP/server.cpp:273-673 | A whole connection changes clients, games and outbox as the serve specification says |
| GameServer.GameServer.Session | SocketsUDP/server.cpp:315-673 | A registered session changes clients, games and outbox as the joined-session specification says, including the skipped cleanup |
| GameServer.GameServer.RequestLoop | SocketsUDP/server.cpp:315-647 | The request loop changes games and sends as the session specification says, and reports whether cleanup runs |
| GameServer.FirstPlayingIndex | SocketsUDP/server.cpp:581-589 | The loop finds the index of the first key whose game the mover plays |
| GameServer.InvolvedKeys | SocketsUDP/server.cpp:657-662 | The loop keeps exactly the keys whose game involves the player |
| GameSession.GameKeySymmetric | SocketsUDP/server.cpp:553 | `(min, max)` of the two names is the same whichever of them answers, holds both names, and puts the smaller first |
| GameSession.FirstPlaying | SocketsUDP/server.cpp:581-589 | The index found is a game the mover plays and every earlier key's game is not |
| GameSession.FindGameOf | SocketsUDP/server.cpp:581-594 | The game found is active and involves the mover; when none is found no such game exists |
| GameSession.FoundGameIsFirst | SocketsUDP/server.cpp:581-589 | No game with a smaller key is one the mover plays |
| GameSession.ReplyOutcome | SocketsUDP/server.cpp:546-558 | Declining changes no game. Accepting stores a fresh blank game under `(min, max)`, with the responder as `player1` and to move, replacing the pair's old game and leaving every other game; all games stay valid |
| GameSession.ReplySends | SocketsUDP/server.cpp:546-558 | The registered inviter receives the `j` answer first; a decline sends only that answer; an accept then sends both registered players the blank board naming the responder to move |
| GameSession.AcceptStartsGame | SocketsUDP/server.cpp:549-558 | After `y` the new game under the pair's key is blank, the responder is `player1` and moves first, and every other game is unchanged |
| GameSession.AnswerFirst | SocketsUDP/server.cpp:546-547 | The inviter receives the `j` answer before any board frame |
| GameSession.AcceptKeepsGamesValid | SocketsUDP/server.cpp:264-270 | Storing an initialised game keeps every game in progress and under its own key |
| GameSession.MoveOutcome | SocketsUDP/server.cpp:576-646 | With no active game the mover gets "No active game found" and nothing changes. Otherwise only the found game changes: a rejection leaves it unchanged, a win or draw erases it, and a continued game is stored as the played game, the old board with the mover's mark in the chosen cell and the turn passed to the opponent |
| GameSession.PlayOutcome | SocketsUDP/server.cpp:597-645 | After the game is found, only it changes: it is unchanged on rejection, erased on a win or draw, and otherwise replaced by the played game, with the turn passed; every game stays valid |
| GameSession.PlaySends | SocketsUDP/server.cpp:597-645 | A move sends only to the registered mover and opponent: a rejection sends the mover exactly its error; a win sends `W1` to the mover and `W0` to the opponent; a draw sends `W2` to both; a continued game sends both the new board naming the opponent to move |
| GameSession.Involved | SocketsUDP/server.cpp:657-662 | The collected keys are exactly the walked keys whose game involves the player |
| GameSession.NoticesReach | SocketsUDP/server.cpp:663-671 | Every notice is `W3` to a registered socket, and every registered opponent of a removed game gets one |
| GameSession.LeaveOutcome | SocketsUDP/server.cpp:654-672 | After cleanup no game involves the player, every other game is untouched and valid, and every registered opponent receives `W3` |
| GameSession.Effect | SocketsUDP/server.cpp:320-646 | Every request keeps every stored game in progress and under its key |
| GameSession.ReplyKeepsGamesValid | SocketsUDP/server.cpp:520-560 | The `j` handler keeps every game valid (a corollary of `GameSession.ReplyOutcome`, used by `GameSession.Effect`) |
| GameSession.MoveKeepsGamesValid | SocketsUDP/server.cpp:561-646 | The `P` handler keeps every game valid (a corollary of `GameSession.MoveOutcome`, used by `GameSession.Effect`) |
| GameSession.RunSession | SocketsUDP/server.cpp:315-647 | The whole request loop keeps every game valid |
| GameSession.SessionIsReplay | SocketsUDP/server.cpp:315-647 | The request loop does what reading every request of the input first and then applying them in order does: the same final games and the same frames, in order. The cleanup runs exactly when the loop is not left at an `f` request cut short |
| GameSession.ServeOutcome | SocketsUDP/server.cpp:273-673 | No registration: nothing changes. Taken name: only the error. A session that reaches cleanup leaves the name unregistered and no game involving it; games stay valid |
| GameSession.AbandonedFileKeepsName | SocketsUDP/server.cpp:414-436 | A registered client whose `f` request is cut short stays registered under its socket after the connection is gone |
| GameSession.CleanSessionFreesName | SocketsUDP/server.cpp:649-673 | With cleanup on every exit, the name is always unregistered and no game involves it afterwards |
| HexText.WordLength | hexToDecimal.cpp:10 | The leading word is the longest run of non-space octets |
| HexText.Words | hexToDecimal.cpp:8-10 | `ss >> byte` yields non-empty words free of whitespace |
| HexText.DigitRun | hexToDecimal.cpp:11 | `stoi(…, 16)` consumes the longest leading run of hexadecimal digits |
| HexText.WordEnd | hexToDecimal.cpp:10 | The scan stops at the first whitespace after the word, or at the end |
| HexText.HexToText | hexToDecimal.cpp:6-15 | The loop returns the decoding of the input's words, or the `stoi` error of the first bad word |
| HexText.OneCharacterPerWord | hexToDecimal.cpp:10-13 | Decoding succeeds exactly when every word converts; then there is one character per word, in order, the low eight bits of its value |
| HexText.FirstRejectedWord | hexToDecimal.cpp:11 | A failed decoding reports the error of the first word that does not convert |
| HexText.BlankInputGivesEmptyText | hexToDecimal.cpp:9-14 | Empty or all-whitespace input gives the empty text |
| HexText.HexRoundTrip | hexToDecimal.cpp:6-15 | Octets written as space-separated two-digit hexadecimal words decode back to themselves |
| Padding.Padded | SocketsUDP/server.cpp:59-65 | The padded packet is longer than `maxLengthPacket`, starts with the packet and continues with `#` only |
| Padding.CompletePacket | SocketsUDP/server.cpp:59-65 | The padding loop keeps the packet as a prefix and appends only `#`, up to length max(packet length, maxLengthPacket + 1) |
| Padding.PaddedIdempotent | SocketsUDP/server.cpp:59-65 | Padding an already padded packet changes nothing |
| Requests.ReadRegistration | Sockets/server.cpp:165-180 | A nickname is read only from an input that starts with `n` |
| Requests.ReadUdpRequest | SocketsUDP/server.cpp:315-436 | Each request read consumes input, and only the `f` request can be abandoned |
| Requests.ReadStreamRequest | Sockets/server.cpp:206-281 | The chat server reads only chat requests, and never abandons one |
| RequestLaws.RegistrationRoundTrip | Sockets/server.cpp:165-180 | The `n` packet of a non-empty name registers that name cut at its first NUL; an empty name ends the session |
| RequestLaws.UdpBroadcastRoundTrip | SocketsUDP/server.cpp:320-339 | The client's `m` packet reads back as the same text |
| RequestLaws.UdpPrivateRoundTrip | SocketsUDP/server.cpp:340-375 | The client's `t` packet reads back as the destination and the same text |
| RequestLaws.SingleOctetRequests | SocketsUDP/client.cpp:100-110 | `l` and `x` are single octets that both servers read as the list and close requests |
| RequestLaws.UdpFileRoundTrip | SocketsUDP/server.cpp:386-436 | The client's `f` packet reads back as destination, file name and exactly the file's octets |
| RequestLaws.TruncatedFileAbandons | SocketsUDP/server.cpp:414-420 | An `f` request whose size field is cut short is abandoned |
| RequestLaws.UdpObjectRoundTrip | SocketsUDP/server.cpp:455-494 | The client's `o` packet reads back as destination and object octets |
| RequestLaws.InviteRoundTrip | SocketsUDP/server.cpp:495-519 | The client's `J` packet reads back as an invitation to the named player |
| RequestLaws.ReplyRoundTrip | SocketsUDP/server.cpp:520-545 | The client's `j` packet reads back as the inviter and `y` or `n` |
| RequestLaws.ReplyAnswerRoundTrip | SocketsUDP/server.cpp:520-545 | Any answer octet after the inviter's name reads back unchanged |
| RequestLaws.MoveRoundTrip | SocketsUDP/server.cpp:561-569 | The client's `P` packet reads back as the same 32-bit position |
| RequestLaws.StreamBroadcastRoundTrip | Sockets/server.cpp:211-221 | The `m` packet of `Sockets/client.cpp` reads back as its text cut at the first NUL |
| RequestLaws.StreamPrivateRoundTrip | Sockets/server.cpp:231-251 | The `t` packet reads back as destination and text, each cut at its first NUL |
| RequestLaws.StreamFileRoundTrip | Sockets/server.cpp:282-358 | The `f` packet reads back as destination, file name and the file's octets |
| RequestLaws.StreamSkipsGameRequests | Sockets/server.cpp:206-211 | The chat server treats a game tag as an unknown request and goes on with the next octet |
| StreamClient.MisreadBroadcast | Sockets/client.cpp:81-90 | The chat client misreads a broadcast from "alice" carrying "hi": it takes the sender's field as a 1377-octet text length and prints "lice", the octets before the first NUL. In the model, which reads exactly the requested count, the read also takes the 1368 octets that follow the frame and does not complete with fewer |
| StreamClient.ErrorRoundTrip | Sockets/client.cpp:69-80 | An `E` frame prints its message up to the first NUL, which is the whole message for every text without a NUL |
| StreamClient.MessageRoundTrip | Sockets/client.cpp:81-107 | A reader that takes the sender first prints a broadcast's sender and text, and a private message's sender and text, each up to its first NUL |
| StreamClient.PrivateAsWritten | Sockets/client.cpp:91-107 | The `T` reader as written matches `buildToClient`'s layout: it prints the sender and the text, each up to its first NUL |
| StreamClient.ListShownAsWritten | Sockets/client.cpp:108-115 | The `L` reader prints the list body as one C string; when the first name is shorter than 256 octets the body starts with a NUL and an empty list is printed |
| StreamClient.ListRoundTrip | Sockets/client.cpp:108-115 | A reader that splits the `L` body into names, as `parseListResponse` does, shows exactly the registered names |
| StreamClient.CloseSkipped | Sockets/client.cpp:64-117 | An `X` frame matches no branch: the tag alone is consumed and the loop goes on with the next octet |
| TicTacToe.CheckWinner | SocketsUDP/server.cpp:239-255 | True exactly when one of the three rows, three columns or two diagonals is all `player` |
| TicTacToe.CheckIsPositionUsed | SocketsUDP/server.cpp:257-262 | True exactly when no cell is blank |
| TicTacToe.InitializeGameInProgress | SocketsUDP/server.cpp:264-270 | A new game is in progress, blank, with `player1` to move |
| TicTacToe.PlayRejections | SocketsUDP/server.cpp:597-607 | The errors come in order: not your turn, then a position of 9 or more, then an occupied cell; a move is rejected exactly when one applies |
| TicTacToe.PlayWritesOneCell | SocketsUDP/server.cpp:610-611 | An accepted move writes the mover's mark into one previously blank cell and changes no other cell |
| TicTacToe.PlayPreservesInProgress | SocketsUDP/server.cpp:632-640 | A game that continues is still in progress, with the turn passed to the opponent and the same players |
| TicTacToe.WinIsTheMoversLine | SocketsUDP/server.cpp:613-622 | A win is a line of the mover's mark, and the other mark still has none |
| TicTacToe.DrawIsFullWithoutLine | SocketsUDP/server.cpp:623-631 | A draw is a full board with no line for either mark |
| UdpClient.ErrorNoticeRoundTrip | SocketsUDP/client.cpp:308-325 | The client reads an `E` frame back as its message |
| UdpClient.MessageNoticeRoundTrip | SocketsUDP/client.cpp:326-379 | The client reads `M` and `T` frames back as sender and text |
| UdpClient.ParseNamesOfListBody | SocketsUDP/client.cpp:113-138 | Parsing a list body followed by more octets yields the body's names, then what the rest parses to |
| UdpClient.ListBodyRoundTrip | SocketsUDP/client.cpp:113-138 | `parseListResponse` inverts the `L` body built by `buildList` |
| UdpClient.ParsedNamesArePrefix | SocketsUDP/client.cpp:113-138 | The names parsed re-encode to a prefix of the buffer: nothing past `len` is read, and parsing stops at the first overrunning entry |
| UdpClient.ParseListResponse | SocketsUDP/client.cpp:113-138 | The cursor loop over the array returns exactly the parsed names of its first `len` octets |
| UdpClient.ParseNamesStep | SocketsUDP/client.cpp:117-135 | One step of the cursor: an entry that would overrun ends the list; otherwise it is taken and parsing goes on after it |
| UdpClient.ListNoticeRoundTrip | SocketsUDP/client.cpp:380-394 | An `L` frame reads back as the names it lists |
| UdpClient.FileNoticeRoundTrip | SocketsUDP/client.cpp:400-464 | An `F` frame reads back as sender, file name and the file's octets |
| UdpClient.ObjectNoticeRoundTrip | SocketsUDP/client.cpp:465-503 | An `O` frame reads back as sender and object octets |
| UdpClient.InviteNoticeRoundTrip | SocketsUDP/client.cpp:504-533 | A `J` frame reads back as the inviter |
| UdpClient.ReplyNoticeRoundTrip | SocketsUDP/client.cpp:534-562 | A `j` frame reads back as the responder and `y` or `n` |
| UdpClient.BoardNoticeRoundTrip | SocketsUDP/client.cpp:563-612 | A `B` frame reads back as the board and the player to move |
| UdpClient.ShortNoticeRoundTrip | SocketsUDP/client.cpp:613-631 | `W` frames read back as their result code, and `X` as the close notice |
| UdpClient.LastDot | SocketsUDP/client.cpp:445 | `find_last_of(".")` finds the last dot, or reports that there is none |
| UdpClient.SavedNameKeepsExtension | SocketsUDP/client.cpp:445-451 | `_dest` is inserted before the last dot or appended when there is none; removing it gives the name back, and the extension is kept |
| UdpClient.SavedNameAroundDot | SocketsUDP/client.cpp:445-451 | Around the last dot at k, the saved name is the prefix, then `_dest`, then the original suffix, and its last dot is at k + 5 |
| UdpClient.InvitationAnswer | SocketsUDP/client.cpp:525 | The server reads `y` exactly when the user typed one of `y`, `Y`, `s`, `S`, and `n` otherwise |
| UdpClient.AcceptsSingleLetter | SocketsUDP/client.cpp:525 | The accept predicate holds exactly for those four single-letter answers |
| UdpClient.ResultCodesAgree | SocketsUDP/client.cpp:613-631 | The codes the server sends (`1`, `0`, `2`, `3`) are announced as win, loss, tie and opponent left; no other code is announced |
| UdpClient.MovePacketInRange | SocketsUDP/client.cpp:599-605 | A position is sent exactly when it is 0 to 8; it reaches the server unchanged and is never rejected as out of range |

## Left out

- Sockets, threads and mutexes. Connections, `accept`, detached threads, the lock ordering and the unlocked `clients.count` calls are concurrency. Each session is modelled as a sequential run over its input octets, with sends appended to an outbox.
- Partial reads. A `recv` that returns fewer octets than asked is modelled only as the end of the input, not as a short read followed by more data.
- Console output, `formatProtocol`, `printBoard`, the clients' command parsing and their input hand-off between threads. These are user interface.
- File reading and writing in `sendFile` and the `F` handler. These are I/O; only the packets and the `_dest` rename are modelled.
- The object body (`Sala` serialised with `memcpy`). It is treated as opaque octets, because its layout depends on the compiler.
- The two high octets of the 10-octet file size come from shifts by 64 and 72 bits, which C++ leaves undefined. They are the parameter `high`: one unconstrained pair per session, so every file forwarded in one session carries the same two octets. No reader depends on them (`Wire.FileSizeFieldDecodes`).
- Sockets/server.cpp `f` handler: after a short read its inner loops `break` and go on using freed buffers, which is undefined behaviour. The model ends the session there.
- The move input's `stoi` in the client (SocketsUDP/client.cpp:600). `MovePacket` takes the already converted integer.
- Padding.CompletePacket: returns the padded string instead of updating the caller's string, and requires `maxLengthPacket >= 0`. The source's missing `;` at SocketsUDP/server.cpp:61 is read as the evident statement, and the function is never called.
- HexText.HexToText: the exception `stoi` throws on a bad word or an out-of-range value ends the C++ program. The model returns it as a `Failure`.
- ChatServer.ChatServeOutcome: states the join and leave broadcasts and the final registry, not the order of every send in the session. That order is fixed by `ChatServer.Serve`'s specification function.
- GameSession.ServeOutcome: for a session that ends without cleanup it states only that games stay valid. `GameSession.AbandonedFileKeepsName` states that case.
- StreamClient.MisreadBroadcast: the single `recv(sock,buf,len,0)` at Sockets/client.cpp:87 returns whatever has arrived. The model reads exactly the requested count, so it states that the misread takes 1368 further octets and fails with fewer. In the program it takes only what is already buffered, up to 1368 octets, and the next read starts there.
- `receiveMessages` in Sockets/client.cpp is modelled one frame at a time (`StreamClient.ReadShownAsWritten`). Its loop, which stops after an `E` frame or a failed tag read, is not modelled.
- Sends the game server makes to a client that is registered but whose socket is gone are modelled as ordinary deliveries. The network layer is not modelled.

## Findings

| source | as written | input that shows it | evidently intended | confidence | as-written member | corrected member |
|---|---|---|---|---|---|---|
| SocketsUDP/server.cpp:414-436 | A failed receive inside the `f` handler's size or data loop does `close; return`, skipping the cleanup at lines 649-673 | After registering "bob", send `f`, a destination, a file name and fewer than 10 size octets, then close the connection | Every exit from the request loop erases the name and the player's games | not executed | GameSession.AbandonedFileKeepsName | GameSession.CleanSessionFreesName |
| Sockets/client.cpp:81-90 | The `M` reader takes the 3 octets after the tag as the text length, but `buildBroadcast` (Sockets/server.cpp:87-98) sends the sender's short field first | `M 00 05 'alice' 00 00 02 'hi'` is read as a 1377-octet text length (0x00 0x05 0x61) and "lice" is printed; octets already buffered after the frame, up to 1368, are taken as text | Read the sender's short field, then the long text field | not executed | StreamClient.MisreadBroadcast | StreamClient.MessageRoundTrip |
| Sockets/client.cpp:108-115 | The `L` body is printed as one C string, but `buildList` (Sockets/server.cpp:115-129) starts it with the first name's 2-octet length | `L 00 07 00 05 'alice'` prints an empty list, since the body begins with 0x00 | Split the body into short fields, as `parseListResponse` (SocketsUDP/client.cpp:113-138) does | not executed | StreamClient.ListShownAsWritten | StreamClient.ListRoundTrip |

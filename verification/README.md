# Chat relay server: command dispatch and mailbox store

A Dafny model of the in-memory message logic of a small multi-client chat
relay server (`server.cpp`). Clients send text commands over a stream
socket. The server keeps two process-wide maps. The first maps a destination
group id to a FIFO queue of pending messages (`messageQueue`). The second is
the client registry, mapping socket number to name and peer address
(`clients`). One received buffer is handled by `clientCommand`. It splits the
buffer into white-space separated tokens and runs one command:

| command | token count | effect | replies |
|---|---|---|---|
| CONNECT name | exactly 2 | sets the sender's name | none |
| LEAVE | any | asks for the sender's socket to be closed | none |
| HELO x | exactly 2 | none | `SERVERS,A5 sock,ip,port` for the sender, then `;sock,ip,port` for every other client in ascending socket order (nothing if the sender is unregistered) |
| SENDMSG to from words... | at least 4 | appends `(from, words joined by single spaces)` to `to`'s queue, unless `SENDMSG,to,from,body` is longer than 5000 characters | `Error: Message exceeds the 500-byte limit.` when too long, else none |
| GETMSGS g | exactly 2 | drains `g`'s queue | `From <from>: <content>` per message, FIFO |
| KEEPALIVE g | exactly 2 | none | `KEEPALIVE,<number pending for g>` |
| anything else | | none | none |

The model is functional. `State` holds the store (`map<string, seq<Message>>`)
and the registry (`map<int, ClientInfo>`). `Dispatch(state, sock, tokens)`
returns an `Outcome`: the new state, the replies in sending order, and a
`closeRequested` flag.

Modules, one per concern:
- `Decimal` (decimal.dfy): `std::to_string`, with a digit reader it is proved against.
- `Tokenizer` (tokenizer.dfy): the C-string reading of the receive buffer and the `stream >> token` split.
- `Mailbox` (mailbox.dfy): `storeMessage`, `getMessages`, `getMessageCount`.
- `Registry` (registry.dfy): the client registry, its ascending iteration order, and the HELO listing.
- `Dispatcher` (dispatcher.dfy): one function per command, plus `Dispatch` and `HandleReceived`.
- `Scenarios` (scenarios.dfy): properties that span several commands.

Where the code differs from the SOH/EOT-framed, comma-separated protocol that client.cpp sends (client.cpp:185), the model follows the code:
- The code splits commands on white space only. It neither strips the SOH (0x01) and EOT (0x04) frame bytes nor splits on commas. A buffer that starts with SOH is therefore never recognised (`Scenarios.FramedCommandIsIgnored`).
- HELO does not set the sender's name. Only CONNECT does.
- There is no LISTSERVERS command. It falls to the final `else` like any unknown command.
- LEAVE closes the socket, but the registry entry is never erased. `closeClient` takes the socket out of the `select` set, so the event loop never sees the zero-length read after which it erases entries. Later HELO replies keep listing the departed client (`Scenarios.LeaveStaysListed`). See "## Findings".
- The oversize error text says "500-byte", but the limit that is checked is 5000 characters. Both constants are kept as written. The checked `SENDMSG,to,from,body` text is never longer than the command text it was tokenised from (`Dispatcher.SendMsgCommandNoLonger`). A properly terminated read of at most 1025 bytes therefore never gets the error; only a read that overruns its terminator can (`Dispatcher.ShortSendMsgIsStored`).

## Model

| member | source | states |
|---|---|---|
| `Decimal.NatToString` | server.cpp:323 | `std::to_string` of a count gives at least one character, only decimal digits, and no leading zero except for 0 itself |
| `Decimal.NatToStringRoundTrip` | server.cpp:323 | reading the rendered digits back yields the rendered number |
| `Decimal.NatToStringInjective` | server.cpp:323 | two counts render to the same text exactly when they are equal |
| `Decimal.IntToString` | server.cpp:249 | a socket number renders with a leading '-' exactly when it is negative, then decimal digits with no leading zero except for 0 itself |
| `Decimal.IntToStringRoundTrip` | server.cpp:249 | reading a rendered socket number back yields that number |
| `Tokenizer.CString` | server.cpp:218 | the stream sees the buffer's prefix up to, and not including, its first NUL |
| `Scenarios.CStringOfNoNul` | server.cpp:218 | a buffer without NUL is seen in full |
| `Tokenizer.Tokenize` | server.cpp:218-221 | every token is non-empty and contains no white space |
| `Tokenizer.TokenizeWordThen` | server.cpp:220-221 | a word followed by white space or the end is extracted as one whole token |
| `Tokenizer.TokenizeJoinSpaced` | server.cpp:218-221 | tokenising tokens joined with single spaces gives back exactly those tokens |
| `Tokenizer.TokenizeKeepsContent` | server.cpp:218-221 | the tokens, concatenated, are exactly the buffer's non-white-space characters in order |
| `Tokenizer.TokenizeIsNormalising` | server.cpp:218-221 | collapsing every white-space run to one space does not change the tokens |
| `Tokenizer.BlankHasNoToken` | server.cpp:218-221 | a buffer of white space only yields no token |
| `Tokenizer.FirstTokenStartsBuffer` | server.cpp:218-227 | when the buffer starts with a non-space character, the command token starts with that same character |
| `Tokenizer.JoinedTokensNoLonger` | server.cpp:218-221 | the tokens written back with single spaces are never longer than the text they were extracted from |
| `Tokenizer.JoinSpacedLength` | server.cpp:276-285 | the joined body is as long as its words plus one separator between each adjacent pair |
| `Mailbox.StoreMessage` | server.cpp:165-169 | the message is appended at the back of the destination's queue, the entry is created if it is absent, and every other group's queue is unchanged |
| `Mailbox.GetMessages` | server.cpp:172-183 | returns exactly the group's queue in FIFO order and leaves it empty; other groups unchanged; no entry created or erased |
| `Mailbox.GetMessageCount` | server.cpp:186-191 | equals the number of messages a drain would return, and is 0 exactly when nothing is pending (also for an unknown group) |
| `Mailbox.StoreAllAppends` | server.cpp:165-169 | a run of enqueues appends exactly those messages, in order, and touches no other group |
| `Mailbox.DrainReturnsEnqueuedInOrder` | server.cpp:165-183 | after any run of enqueues to an empty group, one drain returns exactly those messages in enqueue order and a second drain returns nothing |
| `Mailbox.DrainUnknownGroupChangesNothing` | server.cpp:176-182 | draining an unknown group returns nothing and creates no entry |
| `Mailbox.CountIgnoresOtherGroups` | server.cpp:165-191 | an enqueue to another group does not change a group's count |
| `Mailbox.CountAfterStore` | server.cpp:165-191 | an enqueue raises the destination's count by exactly one |
| `Mailbox.EmptyEntryIsLikeAbsent` | server.cpp:176-190 | an entry with an empty queue gives the same counts and drains as no entry |
| `Registry.Register` | server.cpp:407 | an accepted connection is recorded under its socket with an empty name and its address; other entries unchanged |
| `Registry.Unregister` | server.cpp:441-442 | the socket's entry is erased (a no-op if absent); other entries unchanged |
| `Registry.UnregisterUndoesRegister` | server.cpp:407-442 | accepting a new socket and erasing it again leaves the registry exactly as it was |
| `Registry.SetName` | server.cpp:229 | only the sender's name changes; its address and all other entries are kept |
| `Registry.AscendingSockets` | server.cpp:254 | the registry is visited in strictly ascending socket order, every socket exactly once |
| `Registry.Without` | server.cpp:256 | the sender is skipped; the other sockets keep their order |
| `Registry.HeloSockets` | server.cpp:248-262 | the listing names the sender first, then every other registered socket in ascending order; each registered socket appears exactly once |
| `Registry.PeerEntriesSkipsSelf` | server.cpp:254-262 | the loop with its `sock != client->sock` test renders exactly the entries of the other sockets |
| `Registry.HeloReplyListsEveryClientOnce` | server.cpp:248-262 | the HELO reply is `SERVERS,A5 `, then the sender's entry, then `;sock,ip,port` for each socket of the listing |
| `Dispatcher.Connect` | server.cpp:227-230 | CONNECT changes only the sender's name; the store is kept and nothing is sent |
| `Dispatcher.Helo` | server.cpp:240-268 | HELO from a registered sender gives exactly one listing reply; from an unregistered one, nothing; the state never changes |
| `Dispatcher.AppendEachSpacedIsJoin` | server.cpp:276-280 | the body loop's text is the words joined by single spaces plus one trailing space |
| `Dispatcher.MessageBodyIsJoin` | server.cpp:276-285 | after the pop, the body is the words joined by single spaces, without a trailing space |
| `Dispatcher.SendMsg` | server.cpp:270-303 | an over-long `SENDMSG,to,from,body` leaves the state unchanged and gives exactly the error reply; otherwise `(from, body)` is appended to `to`'s queue, other groups are unchanged and nothing is sent |
| `Dispatcher.SendMsgLength` | server.cpp:287-291 | the checked length is 10 plus the lengths of both ids and the words, plus one separator between each adjacent pair of words |
| `Dispatcher.SendMsgCommandNoLonger` | server.cpp:218-291 | the `SENDMSG,to,from,body` text whose length is checked is never longer than the received command text it was tokenised from |
| `Dispatcher.ShortSendMsgIsStored` | server.cpp:214-303 | a SENDMSG whose text before the first NUL is at most 5000 characters is always stored with no reply; the oversize error needs a longer text |
| `Dispatcher.FormatAll` | server.cpp:311-315 | one `From <from>: <content>` line per message, in order |
| `Dispatcher.GetMsgs` | server.cpp:305-316 | GETMSGS gives one reply per pending message of the group, in FIFO order; afterwards the group has nothing pending and other groups are unchanged |
| `Dispatcher.KeepAlive` | server.cpp:318-325 | KEEPALIVE gives exactly one reply: `KEEPALIVE,` and then the group's pending count in decimal with no leading zero; the state is unchanged |
| `Dispatcher.Dispatch` | server.cpp:227-330 | close is requested exactly for LEAVE; a token list matching no row of the command table changes nothing and sends nothing; the registry keeps its sockets and only CONNECT changes it; only SENDMSG and GETMSGS change the store; only GETMSGS sends more than one reply; each recognised row runs its command |
| `Dispatcher.HandleReceived` | server.cpp:214-330 | a received buffer is read as a C string, tokenised and dispatched; corrected so that a buffer without a token is dropped with no effect, and LEAVE erases the sender's registry entry as well as asking for the close |
| `Dispatcher.BlankBufferHasNoCommand` | server.cpp:218-227 | a buffer with only white space before its NUL yields no token for `tokens[0]` |
| `Dispatcher.EmptyAndNewlineHaveNoCommand` | server.cpp:218-227 | an empty C string (a payload whose first byte is NUL, or a failed `recv` while the shared buffer is still as zeroed at the start of the `select` cycle), a bare newline and an all-NUL buffer yield no token |
| `Scenarios.SendThenGetDeliversOnce` | server.cpp:270-316 | after `SENDMSG to from words...`, a `GETMSGS to` from any client gets exactly `From from: words`, and a second one gets nothing |
| `Scenarios.SendThenGetFromBuffers` | server.cpp:214-316 | the same exchange, starting from the received buffers |
| `Scenarios.HelloWorldSendText` | server.cpp:218-221 | `SENDMSG G2 G1 hello world` is its five tokens joined by single spaces |
| `Scenarios.HelloWorldDeliveredOnce` | server.cpp:270-316 | the tokens of `SENDMSG G2 G1 hello world` followed by the tokens of `GETMSGS G2` reply exactly `From G1: hello world`, and a second `GETMSGS G2` replies nothing |
| `Scenarios.FramedCommandIsIgnored` | server.cpp:218-330 | a buffer that starts with the SOH byte matches no command: the state is unchanged and nothing is sent |
| `Scenarios.KeepAliveIgnoresOtherGroups` | server.cpp:318-325 | a SENDMSG to another group does not change a group's KEEPALIVE reply |
| `Scenarios.ListingContainsEntry` | server.cpp:254-262 | every listed socket's `;sock,ip,port` entry occurs in the listing text |
| `Scenarios.HeloListsEveryOther` | server.cpp:240-262 | HELO from a registered client contains the `;sock,ip,port` entry of every other registered client |
| `Scenarios.HeloListsNewConnection` | server.cpp:240-262 | after another connection is accepted, HELO from a registered client includes the newcomer's `;sock,ip,port` entry |
| `Scenarios.LeaveStaysListed` | server.cpp:231-238 | after LEAVE as written, the socket is to be closed but stays registered, and HELO from any other client still lists its entry |
| `Scenarios.LeaveIsDelisted` | server.cpp:231-238 | after the corrected LEAVE, the socket is no longer registered and HELO from any remaining client lists exactly the other registered clients |

## Left out

- The `select`/`accept`/`recv` event loop in `main`, the `fd_set` bookkeeping and the `maxfds` recomputation in `closeClient`. This is operating-system socket multiplexing. The close that LEAVE asks for is modelled by the `closeRequested` flag. `Register` and `Unregister` model only the two registry updates the loop makes.
- `open_socket`: bind and setsockopt I/O.
- `getTimestamp`, `logCommand` and all console output: wall clock and stdout effects.
- `inet_ntoa` and `ntohs`: foreign library calls. Each client's address is given as a rendered IP string and a port number.
- `send`: every reply is taken as sent whole and in order. Consecutive replies are not delimited on the stream, and the model keeps them as separate strings.
- The 1025-byte receive buffer: a read that fills all 1025 bytes leaves no NUL terminator, and the stream would then read past the buffer. `Tokenizer.CString` instead stops at the end of the given buffer.
- The shared receive buffer: all clients read into one buffer, which is zeroed once per `select` cycle and never NUL-terminated by `recv`. `Dispatcher.HandleReceived`'s `buf` stands for whatever that buffer holds when `clientCommand` runs. That includes bytes left by an earlier client's read in the same cycle, the tail of an earlier and longer read, and the previous bytes again after a failed `recv`. The model does not track which read left which bytes.
- Dispatcher.Dispatch: requires the sender to be registered when the command is a two-token CONNECT. For an unregistered socket, `clients[clientSocket]` would insert a null pointer and dereference it. The event loop only dispatches for registered sockets.
- Registry keys: the model lists `ClientInfo` under its map key. The source prints `Client::sock`, which `main` always sets equal to the key.
- Mailbox.GetMessageCount: does not model the conversion of the queue size to a 32-bit `int`. Counts beyond 2^31 - 1 are unrealistic for an in-memory queue.
- Characters are bytes: `std::string::length` counts bytes, and the model counts `char`s of strings whose characters stand for bytes.
- client.cpp is not part of this model. It is interactive terminal and socket I/O. Its only protocol logic is the SOH/EOT wrapping, and the server never unwraps it.

## Findings

| source | as written | input that shows it | evidently intended | confidence | as-written member | corrected member |
|---|---|---|---|---|---|---|
| server.cpp:218-227 | `tokens[0]` is read without checking that the buffer produced any token | a received buffer that is empty or holds only white space before its first NUL, such as a bare newline or a payload whose first byte is NUL; a failed `recv` (-1 is not 0) also dispatches the shared buffer, which is all NUL only when no earlier `recv` of the same `select` cycle has written to it | a buffer without tokens is dropped like an unrecognised command, with no effect and no reply | high; not executed | `Dispatcher.Dispatch` (requires at least one token), with `Dispatcher.EmptyAndNewlineHaveNoCommand` | `Dispatcher.HandleReceived` |
| server.cpp:231-238 | LEAVE calls `closeClient`, which closes the socket and clears it from the `select` set, but nothing erases the registry entry; the loop at server.cpp:425-442 erases only after a zero-length read, which a socket no longer selected never produces | client A sends `LEAVE`, then client B sends `HELO x`: B's reply still lists A's socket, address and port | LEAVE removes the client from the registry, as the comment on the LEAVE branch expects the socket-handling code to do | high; not executed | `Scenarios.LeaveStaysListed` | `Dispatcher.HandleReceived`, with `Scenarios.LeaveIsDelisted` |

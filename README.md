# pysocks5server: the SOCKS5 wire logic, in Dafny

This project models the byte-level core of `pysocks5server`, a small asyncio SOCKS5 proxy. It follows
RFC 1928 and uses the username/password method of RFC 1929. The model covers:

- the byte-coded enumerations;
- the two reply serialisers: the method-selection reply and the command reply;
- the server's method registry and its first-match method selection;
- the password sub-negotiation;
- the version gate in `handle_client`;
- the client's negotiation and its request parser;
- the per-chunk rule of the data relay, and each relay direction as a sequential loop over the
  chunks it reads.

Each piece that reads and writes the streams is written twice:

- as a function of the input not yet read. It returns a `Wire.Step`, which holds the step's
  result or the exception it raises, the input it leaves unread, and the bytes it writes back;
- as a method on classes that hold a cursor over the input (`Streams.Reader`) and an output buffer
  (`Streams.Writer`). The method is proved to leave exactly the state the function describes.

The properties are then proved about the functions.

Python's own reading behaviour is modelled as follows:

- `read(n)` returns at most `n` bytes (`Wire.Take`), and fewer at the end of the stream.
- `(await read(1))[0]` on an exhausted stream raises IndexError.
- `x, = await read(1)` on an exhausted stream raises a ValueError (`UnpackError`).
- `readexactly(n)` with fewer than `n` bytes raises IncompleteReadError.
- `inet_ntoa` and `inet_ntop` reject a packed value of the wrong length (`PackedLengthError`).
- Addresses, logins and passwords are their packed bytes or their UTF-8 encodings.

Every exception other than the proxy's own `Disconnection` escapes `handle_client` uncaught.
`Disconnection` closes the client's writer.

Modules follow the source files:

| module | file |
|---|---|
| `Wire` (bytes, exceptions, results; `int.to_bytes` / `int.from_bytes`) | — |
| `Streams` (the reader and writer) | — |
| `Enums` | `enums.py` |
| `Packets` | `packets/*.py` (`BasePacket.VERSION` folded in) |
| `Auth` | `auth.py` |
| `Server` | `server.py` |
| `Client` | `client_socks5.py`, and `handle_client` from `server.py` |
| `Relay` | `relay.py` |

`handle_client` sits in `Client` because it builds a `Socks5Client`.

The session model (`Client.Session`, `Client.ClientSession`, `Client.Socks5Client.Handle`) has two
parts:

- It uses the corrected method-selection reply (`Client.Negotiation`). As written, every matched
  negotiation crashes (see Findings), and nothing after it could be modelled.
- It uses the address parser as written (`Client.AddressParse`), with its 4-byte IPv6 read.

## Model

| member | source | states |
|---|---|---|
| Enums.AuthMethodOf | socks5server/enums.py:4-8 | the byte lookup yields a member exactly when some member has that code, and that member's code is the byte |
| Enums.AuthMethodCodeInjective | socks5server/enums.py:4-8 | two methods have the same code exactly when they are the same method |
| Enums.AuthMethodRoundTrip | socks5server/enums.py:4-8 | looking up a method's code gives the method back |
| Enums.AddressTypeOf | socks5server/enums.py:11-14 | the valid address-type codes are exactly 0x01, 0x03 and 0x04; each maps to the type with that code |
| Enums.AddressTypeCodeInjective | socks5server/enums.py:11-14 | the code is injective |
| Enums.AddressTypeRoundTrip | socks5server/enums.py:11-14 | the lookup inverts the code |
| Enums.CommandTypeOf | socks5server/enums.py:17-20 | the valid command codes are exactly 0x01..0x03, each with its command |
| Enums.CommandTypeCodeInjective | socks5server/enums.py:17-20 | the code is injective |
| Enums.CommandTypeRoundTrip | socks5server/enums.py:17-20 | the lookup inverts the code |
| Enums.ReplyStatusOf | socks5server/enums.py:23-32 | the valid status codes are exactly 0x00..0x08, each with its status |
| Enums.ReplyStatusCodeInjective | socks5server/enums.py:23-32 | the nine codes are distinct |
| Enums.ReplyStatusRoundTrip | socks5server/enums.py:23-32 | the lookup inverts the code |
| Wire.ToBigEndian2 | socks5server/packets/command_reply.py:32 | `to_bytes(2, "big")` succeeds exactly for 0..65535, giving two bytes that read back as the number; otherwise it raises OverflowError |
| Packets.WriteChooseAuthMethod | socks5server/packets/choose_auth_method.py:11-12 | for an AuthMethod member: two bytes, 0x05 and then the member's code; for a plain int: AttributeError |
| Packets.ChooseAuthMethodInjective | socks5server/packets/choose_auth_method.py:11-12 | equal replies come from equal methods |
| Packets.NoAcceptableMethodReply | socks5server/packets/choose_auth_method.py:12 | with INVALID the reply is exactly `05 FF` |
| Packets.SelectionReply | socks5server/packets/choose_auth_method.py:11-12 | the reply for a method byte is two bytes starting with 0x05; it equals the enumeration writer's output exactly for the member with that code |
| Packets.AddressField | socks5server/packets/command_reply.py:17-26 | IPv4 needs 4 packed bytes and IPv6 needs 16, and either is copied unchanged; a domain gets a one-byte length prefix and fails beyond 255 bytes; each failure has its own exception |
| Packets.WriteCommandReply | socks5server/packets/command_reply.py:16-33 | succeeds exactly when the address fits and the port is in 0..65535; the address is checked first; the output is `05 status 00 atyp`, the address field and the big-endian port; its length is 10 (IPv4), 22 (IPv6) or 7 + len (domain) |
| Auth.LengthPrefixed | socks5server/auth.py:21-24 | after a length byte n, the field is the next min(n, what is left) bytes and the rest is what follows them; an exhausted stream raises IndexError and leaves nothing unread |
| Auth.PasswordExchange | socks5server/auth.py:19-33 | raises IndexError, writing nothing, exactly when the input ends before a length byte; otherwise it writes exactly one reply, `01 00` or `01 FF`, matching its verdict |
| Auth.FieldReadsBack | socks5server/auth.py:21-24 | a field written as its length and its bytes reads back exactly, leaving what follows unread |
| Auth.PasswordWireFormat | socks5server/auth.py:19-33 | a well-formed request consumes exactly 1 + 1 + ULEN + 1 + PLEN bytes; the version byte is ignored; the result is true exactly when the login is known and its password matches; the reply matches the result |
| Auth.Accepts | socks5server/auth.py:26 | the credential test: the login is a key of `users` and its password is equal to the one supplied; it is the verdict `Auth.PasswordWireFormat` proves for every well-formed request (a predicate with no contract of its own) |
| Auth.PasswordReply | socks5server/auth.py:27-31 | the reply is two bytes starting with 0x01, and its status byte is 0x00 exactly on success |
| Auth.Exchange | socks5server/auth.py:10-33 | NoAuthentication accepts, reading and writing nothing; PasswordAuthentication runs the password exchange |
| Auth.ReadLengthPrefixed | socks5server/auth.py:21-24 | the two stream reads leave the result and reader state of `LengthPrefixed` |
| Auth.PasswordAuthenticate | socks5server/auth.py:19-33 | the five reads and the single write leave the result, reader state and written bytes of `PasswordExchange`; the writer's closed flag is unchanged |
| Auth.Authenticate | socks5server/auth.py:7-33 | whichever handler is selected, its reads and writes match `Exchange` |
| Server.SocksServer.constructor | socks5server/server.py:14-22 | with `no_auth` the registry is exactly {0 ↦ NoAuthentication}, otherwise empty; there are no event handlers |
| Server.SocksServer.RegisterAuthentication | socks5server/server.py:28-29 | sets or overwrites only the given key; the event handlers are unchanged |
| Server.SocksServer.RegisterHandler | socks5server/server.py:61-64 | the handler table becomes `WithHandler` of the old one; the registry is unchanged |
| Server.WithHandler | socks5server/server.py:61-64 | the event gains `func` in its set, and the set is created on first use; every other event is unchanged |
| Server.RegisterHandlerIdempotent | socks5server/server.py:61-64 | registering the same (event, func) twice is the same as once |
| Server.ChooseAuthMethod | socks5server/server.py:56-59 | None exactly when no offered byte is registered; otherwise the first registered byte in the client's order, with its handler |
| Server.ClientOrderDecides | socks5server/server.py:57-58 | registry {2} with offer [1, 2] selects 2 |
| Server.FirstRegisteredSelected | socks5server/server.py:56-59 | the first offered byte that is registered is the one selected |
| Client.InvalidRepliesAreCommandReplies | socks5server/client_socks5.py:19-30 | `_INVALID_COMMAND` is exactly `05 07 00 01 00 00 00 00 00 00`, and `_INVALID_ADDRESS` is the same with 0x08 |
| Client.AddressParseWith | socks5server/client_socks5.py:69-85 | an exhausted stream raises the unpacking error; an unknown type tag gives None after consuming only the tag; a parsed address has a known tag; only the unpacking or packed-length errors are raised; nothing is written |
| Client.AddressParse | socks5server/client_socks5.py:69-85 | `_read_address` as written: it never yields an IPv6 address |
| Client.AddressParseCorrected | socks5server/client_socks5.py:69-85 | `_read_address` with a 16-byte IPv6 read: an IPv6 tag followed by 16 bytes yields exactly those bytes and leaves the rest unread; every IPv6 address it yields is 16 bytes |
| Client.AddressFieldReadsBack | socks5server/client_socks5.py:70-85 | a type tag and address field read back as that address, given the correct IPv6 read length; what follows is left unread |
| Client.ReplyAddressReadsBackWith | socks5server/client_socks5.py:70-85 | the address part of any well-formed command reply parses back to its address, leaving the port bytes unread |
| Client.ReplyAddressReadsBack | socks5server/client_socks5.py:76-82 | as written, IPv4 and domain reply addresses read back exactly: IPv4 consumes 4 bytes, a domain its length byte and that many bytes |
| Client.Ipv6ReplyDoesNotReadBack | socks5server/client_socks5.py:83-85 | as written, an IPv6 address raises the packed-length error, with 12 of its bytes left unread |
| Client.CorrectedReplyAddressReadsBack | socks5server/client_socks5.py:69-85 | with a 16-byte IPv6 read, every well-formed reply address reads back |
| Client.RequestParse | socks5server/client_socks5.py:87-110 | writes nothing, `_INVALID_COMMAND` or `_INVALID_ADDRESS`; it writes a reply exactly when it ends the session by Disconnection |
| Client.RequestWireFormat | socks5server/client_socks5.py:88-108 | a complete IPv4 or domain request is consumed exactly (VER CMD RSV ATYP ADDR PORT, big-endian port); CONNECT yields the address and port, any other command the COMMAND_NOT_SUPPORTED reply |
| Client.CommandCheckedBeforeAddress | socks5server/client_socks5.py:88-103 | with an unknown address type, only the tag is consumed before the port; a non-CONNECT command is reported even though the address is bad too |
| Client.Ipv6RequestRaises | socks5server/client_socks5.py:84-91 | as written, every request with address type 0x04 raises, whatever its command |
| Client.ReadOffer | socks5server/client_socks5.py:53-54 | one count byte N, then exactly N method bytes; otherwise the unpacking error, or IncompleteReadError with the stream drained |
| Client.AfterAuthentication | socks5server/client_socks5.py:66-67 | the session goes on with the selected byte exactly when the handler returned true; false raises Disconnection and a handler's exception passes through |
| Client.Negotiation | socks5server/client_socks5.py:52-67 | `authenticate` with the corrected selection reply: it writes nothing exactly when reading the offer fails; an accepted method is registered, and its reply `05 <method>` is the first thing written |
| Client.NegotiationAsWritten | socks5server/client_socks5.py:52-67 | `authenticate` as written: it never succeeds, and the only bytes it ever writes are `05 FF` |
| Client.NoAcceptableMethod | socks5server/client_socks5.py:53-59 | with no registered method offered, the reply is exactly `05 FF`, the session ends and nothing after the offer is read; the same holds for the code as written |
| Client.MethodSelected | socks5server/client_socks5.py:61-67 | with the corrected selection reply: when some offered method is registered, `05 <method>` is written first, then the handler runs; the session goes on only if the handler accepts |
| Client.AsWrittenSelectionRaises | socks5server/client_socks5.py:61-63 | as written, every matched offer raises AttributeError before anything is written |
| Client.Session | socks5server/client_socks5.py:48-50 | `handle` with the corrected selection reply: the negotiation's output comes first, and a request is returned only after a successful negotiation |
| Client.ClientSession | socks5server/server.py:36-54 | with the corrected selection reply: the writer is closed exactly when the version is rejected or the session ends by Disconnection |
| Client.WrongVersionRejected | socks5server/server.py:37-42 | a first byte other than 5 gets exactly `05 FF` and a closed writer; no session runs |
| Client.UnmatchedOfferClosesSession | socks5server/server.py:36-51 | with no common method the client gets `05 FF`, the writer is closed and nothing after the offer is read |
| Client.PasswordRefused | socks5server/client_socks5.py:61-67 | with the corrected selection reply: when the password method is selected, wrong credentials get `05 02` then `01 FF`, and the client ends by Disconnection |
| Client.WrongPasswordClosesSession | socks5server/server.py:48-51 | with the corrected selection reply: that session's writer is closed after exactly `05 02 01 FF`; nothing after the credentials is read |
| Client.SessionEndsInNegotiation | socks5server/server.py:48-51 | with the corrected selection reply: a negotiation that ends by Disconnection ends the session with a closed writer and the negotiation's output |
| Client.NoAuthConnect | socks5server/client_socks5.py:48-108 | with the corrected selection reply: when only `NoAuthentication` is registered, under 0x00 (`SocksServer(no_auth=True)`), a CONNECT request for an IPv4 or domain address reaches `_handle_connection` with that address and port, after the single reply `05 00` |
| Client.Socks5Client.constructor | socks5server/client_socks5.py:34-37 | stores the reader, the writer and the server |
| Client.Socks5Client.Authenticate | socks5server/client_socks5.py:52-67 | with the corrected selection reply: the reads and writes of the negotiation leave the result, reader state and written bytes of `Negotiation` |
| Client.Socks5Client.ReadAddress | socks5server/client_socks5.py:69-85 | the reads leave the result and reader state of the as-written parser |
| Client.Socks5Client.HandleConnectionRequest | socks5server/client_socks5.py:87-110 | the reads and writes leave the result, reader state and written bytes of `RequestParse` |
| Client.Socks5Client.Handle | socks5server/client_socks5.py:48-50 | with the corrected selection reply: negotiation, then the request, each on what the previous step left unread |
| Client.HandleClient | socks5server/server.py:36-54 | with the corrected selection reply: the version gate, the session, and closing on Disconnection leave the outcome, reader state, written bytes and writer state of `ClientSession` |
| Relay.ExecModifyCallbacks | socks5server/relay.py:36-44 | None only when some callback returned DONT_SEND; a changed chunk is some callback's bytes |
| Relay.InvokedCount | socks5server/relay.py:36-44 | at most every callback is awaited, and at least one when there are any |
| Relay.FirstDecisionWins | socks5server/relay.py:37-42 | the first callback returning bytes or DONT_SEND decides the result, and no callback after it is awaited |
| Relay.UndecidedKeepsChunk | socks5server/relay.py:37-44 | when no callback decides, all are awaited and the original chunk is returned, also with no callbacks |
| Relay.RunModifyCallbacks | socks5server/relay.py:36-44 | the early-return loop computes `ExecModifyCallbacks`, awaiting exactly callbacks 0 .. `InvokedCount` − 1 in order |
| Relay.ObserverEvents | socks5server/relay.py:32-34 | one scheduled task per data callback, in order, each with the direction and the original chunk |
| Relay.ScheduleObservers | socks5server/relay.py:32-34 | the loop schedules exactly `ObserverEvents` |
| Relay.ChunkEventsOrder | socks5server/relay.py:47-53 | in one iteration every data callback is scheduled before any modify callback runs; the last event is the write exactly when the chunk is not dropped |
| Relay.ChunkOutput | socks5server/relay.py:49-52 | what one chunk contributes to the output; when it differs from the chunk read, some callback dropped it or returned exactly those bytes |
| Relay.ChunkEvents | socks5server/relay.py:48-53 | the events of one iteration; every chunk read leaves at least one event (its properties are in `Relay.ChunkEventsOrder`) |
| Relay.HandleChunk | socks5server/relay.py:48-53 | one loop body writes the chunk's verdict (nothing when dropped) and produces that iteration's events |
| Relay.LiveChunks | socks5server/relay.py:47 | the chunks handled are the non-empty prefix before the first empty read |
| Relay.AfterEnd | socks5server/relay.py:47 | the chunks left unread follow the first empty read |
| Relay.ForwardedIsConcatOfOutputs | socks5server/relay.py:47-53 | the bytes written are the in-order concatenation of the per-chunk results |
| Relay.Forwarded | socks5server/relay.py:47-53 | all the bytes one loop writes; with no modify callbacks, the concatenation of every chunk before the first empty read, unchanged (the general case is `Relay.ForwardedIsConcatOfOutputs`) |
| Relay.NothingForwardedAfterEnd | socks5server/relay.py:47-55 | nothing after the first empty read is forwarded |
| Relay.ForwardedAppend | socks5server/relay.py:47-53 | the output splits at any chunk boundary before the end |
| Relay.DroppedChunkSkipped | socks5server/relay.py:50-51 | a dropped chunk writes nothing and the loop goes on with the next read |
| Relay.PumpEvents | socks5server/relay.py:47-53 | everything one loop schedules, awaits and writes, chunk by chunk (a function with no contract of its own; see `Relay.PumpEventsCoverLiveChunks` and `Relay.PumpEventsAreConcatOfIterations`) |
| Relay.PumpEventsCoverLiveChunks | socks5server/relay.py:47-53 | every chunk before the first empty read leaves at least one event, and a loop whose first read is empty leaves none |
| Relay.PumpEventsAreConcatOfIterations | socks5server/relay.py:47-53 | the loop's events are, in order, one iteration's events per chunk read before the first empty read, so `Relay.ChunkEventsOrder` holds for every stretch of them |
| Relay.Pump | socks5server/relay.py:46-55 | one direction's loop writes the forwarded bytes, closes the opposite writer on the empty read, stops reading there, and produces the events of `PumpEvents` |
| Relay.ClientDstRelay.constructor | socks5server/relay.py:21-30 | stores the four streams and the two callback lists |
| Relay.ClientDstRelay.ClientToDst | socks5server/relay.py:46-55 | the client-to-destination loop, told CLIENT_TO_DST throughout |
| Relay.ClientDstRelay.DstToClient | socks5server/relay.py:57-66 | as written: the data callbacks are told DST_TO_CLIENT but the modify callbacks CLIENT_TO_DST |
| Relay.ClientDstRelay.DstToClientCorrected | socks5server/relay.py:57-66 | with the direction corrected, both kinds of callback are told DST_TO_CLIENT |
| Relay.MislabelledDirectionForwardsFilteredChunk | socks5server/relay.py:59-60 | a callback that drops destination-to-client traffic lets a destination chunk through as written, and drops it once corrected |

## Left out

- I/O and asyncio plumbing:
  - The sockets, `drain`, `wait_closed` and the accept loop of `serve`.
  - The connect and disconnect notifications of `handle_client`.
  - `create_task` scheduling, shown only as the order in which tasks are created.
- `Socks5Client._handle_connection`: it opens a real connection and reads socket names. It also reads `self._server.public_ip`, which `SocksServer` never defines. The model stops at a CONNECT request handed over to it (`Client.ClientOutcome.Connected`).
- `_handle_bind`, `_handle_udp`, `__main__.py`, `__repr__`, `get_rw` and the write wrappers are stubs or trivial wrappers, and are left out.
- `ClientDstRelay.run` is left out; each direction is modelled on its own. The gather of the two loops, the swallowed ConnectionResetError, the final close and the Disconnection are concurrency and teardown.
- The textual `inet_*` conversions and UTF-8 encoding and decoding are represented by their bytes:
  - Addresses are their packed bytes.
  - A reply address of the wrong packed length stands for text `inet_aton`/`inet_pton` reject.
  - UTF-8 decode errors on logins, passwords and domain names are not modelled.
- Registry keys are bytes: `register_authentication` with a key outside 0..255 could never match an offered byte and is not modelled.
- `ClientEventType`, the event names the handlers are registered under, and the `on_*` decorators are not modelled.
  - `register_handler` is modelled on handler identities.
  - The relay's callback lists are given explicitly, as sequences.
  - As written, the client looks handlers up by `ClientEventType`, while the `on_*` decorators register them under string names. Whenever handlers are registered under string names, the relay is given empty lists.
- `DataModify` has a single member. It is `Relay.ModifyResult.DontSend`, next to the two other results a modify callback can give: bytes, or anything else.
- Each `read(n)` sees all the remaining input: data arriving in several pieces is not modelled. In asyncio, `read(n)` returns whatever is buffered, so a login, password, domain name or port split across segments would be read short.
- The callbacks are modelled as follows:
  - Modify callbacks are pure functions of the direction and the chunk.
  - Data callbacks are known only by identity.
  - The relay's 32 KiB read size is not modelled: the chunks one direction reads are given as a sequence.
- Client.MethodSelected, Client.PasswordRefused, Client.WrongPasswordClosesSession, Client.SessionEndsInNegotiation, Client.NoAuthConnect, Client.Session, Client.ClientSession, Client.Socks5Client.Authenticate, Client.Socks5Client.Handle and Client.HandleClient describe the session with the corrected selection reply. As written, each of their scenarios with a matched method raises AttributeError at client_socks5.py:63 before anything is written (`Client.AsWrittenSelectionRaises`, `Client.NegotiationAsWritten`).
- Auth.PasswordExchange: states that the unread rest is no longer than the input, not that it is a suffix of it. The exact consumption is stated by Auth.PasswordWireFormat.
- Client.AddressParseWith: states that the unread rest is no longer than the input, not that it is a suffix of it. Client.AddressFieldReadsBack states the exact consumption.
- Client.RequestParse: states that the unread rest is no longer than the input, not that it is a suffix of it. Client.RequestWireFormat and Client.CommandCheckedBeforeAddress state the exact consumption.

## Findings

| source | as written | input that shows it | evidently intended | confidence | as-written member | corrected member |
|---|---|---|---|---|---|---|
| socks5server/client_socks5.py:63 | `ChooseAuthMethod(method_type).write()` is built from `method_type`, a plain int taken from the offered bytes. `write` (packets/choose_auth_method.py:12) then reads `.value`, which an int lacks, so the negotiation raises AttributeError | version 05, offer `01 00`, with `NoAuthentication` registered under 0x00 (`SocksServer(no_auth=True)`) | write `05 <method>` and run the handler | not executed | Client.AsWrittenSelectionRaises | Client.MethodSelected |
| socks5server/client_socks5.py:84 | the IPv6 branch reads 4 bytes, which `inet_ntop(AF_INET6, …)` rejects, and it leaves 12 address bytes unread | a request `05 01 00 04` followed by 16 address bytes and a port | read the 16 bytes of an IPv6 address | not executed | Client.Ipv6ReplyDoesNotReadBack | Client.CorrectedReplyAddressReadsBack |
| socks5server/relay.py:60 | the destination-to-client loop tells the modify callbacks CLIENT_TO_DST | a modify callback that returns DONT_SEND for DST_TO_CLIENT, and any chunk from the destination | tell the modify callbacks DST_TO_CLIENT | not executed | Relay.MislabelledDirectionForwardsFilteredChunk | Relay.ClientDstRelay.DstToClientCorrected |

The session model uses the corrected negotiation (`Client.Negotiation`). `Client.NegotiationAsWritten` keeps the code as written. The other two defects are modelled as written in the session and in the relay (`Client.AddressParse`, `Relay.ClientDstRelay.DstToClient`). Their corrected forms, `Client.AddressParseCorrected` and `Relay.ClientDstRelay.DstToClientCorrected`, carry the intended properties.

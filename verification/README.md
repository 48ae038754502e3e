# Verification of relays, trackers and translators

A Dafny model of the parts of this repository that have unbounded behaviour and a
specification that can be stated simply, with proofs of it. `dafny verify dfyconfig.toml`
checks all of it.

| file | models |
|---|---|
| `DnsFraming.dfy`, `DnsTcpReassembler.dfy`, `DnsServerReader.dfy`, `DnsServerRequests.dfy` | DNS over TCP: the parse of a whole stream, and the two incremental readers measured against it; the Linux relay's UDP requests |
| `DnsChannel.dfy`, `DnsIdentifiers.dfy`, `Descriptors.dfy` | the messages to and from the host, the identifiers of clients, file descriptors |
| `DnsUdpBooks.dfy`, `DnsUdpMap.dfy` | the FreeBSD relay's UDP clients: their table with its history as a value, and the code that changes it |
| `DnsTcpBooks.dfy`, `DnsTcpConns.dfy` | the same for its TCP clients, with every byte read from and written to them |
| `DnsTunnel.dfy` | its event loop over both |
| `PortAllocations.dfy`, `TrackerProtocol.dfy` | the Linux port tracker: its table of ports with deadlines, and its three threads as a transition system |
| `RelayTracker.dfy` | the FreeBSD port tracker: sort, in-place removal of repetitions, two-index diff, the host's mirror |
| `NtfsEscape.dfy` | NTFS path escaping and the separator pass before unescaping |
| `ConsoleSession.dfy`, `MessageReader.dfy` | the life of a console session's child, and the buffered message readers |
| `OscSniffer.dfy`, `OscColor.dfy` | the byte-fed OSC recogniser and the background colour it tracks |
| `WslPath.dfy` | the two path translators |
| `Sockets.dfy`, `Words.dfy`, `Wrappers.dfy` | sockets as scripts of what recv will find, 32-bit words, Option |

Code that changes state is modelled by classes and loops with the source's own fields
(`readBuf`, `readLen`, `oscBuf`, `udpMap`, ...). Ghost fields record histories: bytes
received, messages sent, what was answered. Specifications are functions on values, so a
method's contract ties its new state to the history, and the lemmas speak about whole runs.

What comes from outside is a parameter or a free choice: what recv, poll, accept and
waitpid return, the time, the host's answers. `Socket` is a script of events that recv
delivers in pieces of any size; what sends, accept and the host's end of the DNS channel
take or hand out is given by scripts too, so that what happens follows from them. Library calls of the C++ standard
library are atomic steps. C strings are sequences without NUL, or arrays with the place of
the NUL; in `OscSniffer`, `OscColor` and `WslPath` a byte is a Dafny `char`.

## Where the code and what is said about it differ

- A full UDP table drops the query; it does not recycle slot 0 (`FreeBSD/dns_tunneling.h:216-229`).
- A repeated bind does not renew a port's deadline (`src/linux/init/GnsPortTracker.cpp:101`,
  against the comment at lines 263-265).
- A port whose release the host refuses is forgotten all the same (`src/linux/init/GnsPortTracker.cpp:219-231`).
  `HeldIsReserved` says exactly which ports the host then keeps; `RefusedReleaseLeaks` is a log that leaks.
- The FreeBSD tracker takes over its new snapshot even where sends failed (`FreeBSD/port_tracker.h:430-440`).
  `MirrorIsTracked` says exactly when the host differs; `LostStart` is such a log.
- The Linux DNS server's header takes a fresh identifier to be free (`src/linux/init/DnsServer.h:100-108`);
  an unanswered request keeps its entry, and `emplace` leaves it to the older one. `NewestOwnsItsEntry`
  gives the exact condition, `NewestIsShadowed` a run that breaks it.
- The Linux DNS reader never gets past a frame of length 0 (the next recv asks for 0 bytes)
  or of more than 65533 bytes (its 16-bit offset cannot reach the size); the FreeBSD reader
  does. `ReadersAgree` gives the exact condition, `UnusableStream` the streams.
- A component of a background colour can exceed 255 (`FreeBSD/terminal_notify.h:192`).
  `ComponentsAreBytes` gives the exact condition; `NegativeComponent` is the colour `#-1-1-1`.
- The readers report a disconnect on end of file even with a whole message buffered
  (`FreeBSD/hvbridge.c:511-512`). `LostAtEnd` gives the exact condition; `HeaderLostAtEnd` is such a message.
- A path translated from Windows is a slash if nothing is left behind its prefix
  (`src/linux/init/util.cpp:3106-3109`), so the empty path does not come back: `TranslationRoundTrip`.
- The local interop relay still writes to the control channel after a host disconnect
  (`FreeBSD/hvbridge.c:773-776`, `1124-1126`), so the channel does not go silent.

## Model

| member | source | states |
|---|---|---|
| `DnsTcpReassembler.Connection.HandleReadable` | FreeBSD/dns_tunneling.h:473-527 | Whatever the chunking, interruptions and earlier calls: unless a send fails, all bytes up to the end of the stream are read, what the host has been given is exactly and in order the complete frames of the bytes received, the buffer holds exactly the unparsed tail, the connection ends as the socket did, and the overflow close never fires. The host is given as many as it takes, one after the other: a send fails exactly if it does not take them all, and then the connection is closed. |
| `DnsTcpReassembler.Connection.ReadOnce` | FreeBSD/dns_tunneling.h:476-526 | One recv and its extraction keep that account; the overflow branch needs a tail as long as the whole buffer. |
| `DnsTcpReassembler.Connection.Extract` | FreeBSD/dns_tunneling.h:499-524 | The inner loop forwards every complete frame of the buffer, in order, labelled with the connection, and leaves an incomplete rest. |
| `DnsTcpReassembler.Connection.ShiftDown` | FreeBSD/dns_tunneling.h:516-523 | Shifting drops exactly the consumed bytes and forgets the length. |
| `DnsTcpReassembler.FramePopped` | FreeBSD/dns_tunneling.h:507-523 | Popping the first frame of the buffer keeps forwarded frames plus buffer equal to the parse of the whole stream. |
| `DnsFraming.ParseCovers` | FreeBSD/dns_tunneling.h:498-524 | Section 4.2.2 of RFC 1035: the parse loses no byte, and its tail holds no complete frame. |
| `DnsFraming.ParseUnique` | FreeBSD/dns_tunneling.h:498-524 | There is no other way to split a stream into frames and an incomplete rest. |
| `DnsFraming.ParseAppend` | FreeBSD/dns_tunneling.h:498-524 | Parsing may stop anywhere and go on from the tail: the result does not depend on how the stream was cut. |
| `DnsFraming.TailIsShort` | FreeBSD/dns_tunneling.h:477-482 | An incomplete frame is always shorter than the read buffer, so recv never asks for 0 bytes. |
| `DnsServerReader.TcpConnectionContext.HandleNewTcpData` | src/linux/init/DnsServer.cpp:204-274 | The connection is kept exactly if there was room to ask for and data came; then something was received. A request is tunneled only when complete; before a spoiling length the 16-bit offset does not wrap, and no read reaches past the end of the frame it is in. |
| `DnsServerReader.TcpConnectionContext.Take` | src/linux/init/DnsServer.cpp:232-257 | The code after recv keeps the account of what was tunneled, whichever of the three ways it goes. |
| `DnsServerReader.AfterRecv` | src/linux/init/DnsServer.cpp:232-257 | All three ways, for any received bytes: partial data, a length just read, a request just completed, with the 16-bit addition written out. |
| `DnsServerReader.ReadersAgree` | src/linux/init/DnsServer.cpp:204-274 | On the same bytes this reader has tunneled exactly what the FreeBSD reader forwarded, each request with its prefix, if and only if every frame so far has a length in 1..65533. |
| `DnsServerReader.SpoiledForGood` | src/linux/init/DnsServer.cpp:219-234 | Once a frame of another length has come, nothing that arrives later is ever tunneled. |
| `DnsServerReader.UsablePrefixFacts` | src/linux/init/DnsServer.cpp:219-234 | The frames that can be tunneled are a prefix of all frames, and all of them exactly if all lengths are usable. |
| `DnsServerReader.UnusableStream` | src/linux/init/DnsServer.cpp:219-234 | Lengths 0, 65534 and 65535 are real streams from which nothing is tunneled (concrete counterexamples to reading every frame). |
| `DnsServerReader.TcpConnectionContext.constructor` | src/linux/init/DnsServer.h:56-61 | A new context holds room for the two length bytes and has read nothing. |
| `DnsServerRequests.DnsServer.HandleUdpDnsRequest` | src/linux/init/DnsServer.cpp:351-411 | A request gets the next identifier and is told to the host under it; an entry that exists is kept, and of a request that cannot be tunneled none is left. |
| `DnsServerRequests.DnsServer.Track` | src/linux/init/DnsServer.cpp:377-392 | Emplacing: the sender is entered exactly if the identifier is free; otherwise the older request keeps its entry. |
| `DnsServerRequests.DnsServer.HandleUdpDnsResponse` | src/linux/init/DnsServer.cpp:107-136 | A response to a tracked identifier goes to the address entered, once, and the entry is gone; any other is dropped. |
| `DnsServerRequests.NewestOwnsItsEntry` | src/linux/init/DnsServer.h:100-108 | The entry of an identifier belongs to the newest request with it if and only if the identifier was free when that request came (the header assumes that it always is; nothing expires entries). |
| `DnsServerRequests.FirstStays` | src/linux/init/DnsServer.h:100-108 | Without answers the first request keeps its entry, whatever comes later. |
| `DnsServerRequests.NewestIsShadowed` | src/linux/init/DnsServer.h:100-108 | 2^32 + 1 requests from different clients after which the newest has the identifier of the first, and its answer would go to the first one's client. |
| `DnsServerRequests.NoneShadowed` | src/linux/init/DnsServer.h:100-108 | For the first 2^32 requests it always was, and the entry holds that request's client. |
| `DnsChannel.ChannelRoundTrip` | FreeBSD/dns_tunneling.h:289-364 | Decoding the encoding of (protocol, id, payload), whatever follows it, gives it back if and only if the payload has at most 65528 bytes. |
| `DnsChannel.OnlyThatTypeIsRead` | FreeBSD/dns_tunneling.h:328-364 | Read is exactly what has the type of a DNS message, a size from 20 to 65548 bytes and that many bytes; every other type is refused. |
| `DnsChannel.AnswerFits` | FreeBSD/dns_tunneling.h:328-364 | No message off the channel carries more than 65528 bytes, so the response-too-large branch (lines 557-561) is never taken for one. |
| `DnsChannel.ConversationRoundTrip` | FreeBSD/dns_tunneling.h:289-364 | A whole sequence of such messages is read back message by message. |
| `DnsUdpMap.UdpMap.UdpAlloc` | FreeBSD/dns_tunneling.h:212-230 | The first free entry, and only it, changes: it gets the next identifier, the sender and a 30 second deadline. If all are used nothing changes (the comment about recycling slot 0 is not what the code does). |
| `DnsUdpMap.UdpMap.UdpLookup` | FreeBSD/dns_tunneling.h:232-239 | The first used entry with the identifier, if there is one. |
| `DnsUdpMap.UdpMap.UdpFree` | FreeBSD/dns_tunneling.h:241-249 | Exactly the first used entry with the identifier is freed. |
| `DnsUdpMap.UdpMap.HandleUdpReadable` | FreeBSD/dns_tunneling.h:420-447 | Waiting datagrams are entered and told to the host in order, each with its own bytes and the next identifier, up to one that is empty, finds the table full or is not taken by the host, whose identifier is freed again; every other live entry stays where it is and as it is, and nobody is answered. |
| `DnsUdpBooks.RelayTells` | FreeBSD/dns_tunneling.h:420-447 | Exactly that of any line of datagrams and any willingness of the host. |
| `DnsUdpBooks.OneKeepsRight` | FreeBSD/dns_tunneling.h:420-447 | One datagram keeps the account: every query has one entry of its own or one fate (answered, expired, evicted), the host is told only of queries under their own identifiers, and of no evicted one for the first 2^32 queries. |
| `DnsUdpMap.UdpMap.ExpireUdp` | FreeBSD/dns_tunneling.h:674-683 | A poll timeout sweeps the table in order and changes nothing else. |
| `DnsUdpBooks.SweptEntries` | FreeBSD/dns_tunneling.h:674-683 | The sweep frees exactly the entries whose deadline has passed. |
| `DnsUdpBooks.EntryLives` | FreeBSD/dns_tunneling.h:218-226 | An entry made at t is freed by a sweep at a later time exactly if that is more than 30000 ms after t. |
| `DnsUdpBooks.SweptOnlyExpires` | FreeBSD/dns_tunneling.h:674-683 | It answers and evicts nobody: what it frees is expired. |
| `DnsUdpMap.UdpMap.AnswerUdp` | FreeBSD/dns_tunneling.h:537-547 | The query that has the first entry with the identifier is answered at the address it came from and with exactly these bytes; its entry is free and its fate decided, and all else stays. With no such entry nothing changes. |
| `DnsUdpBooks.WaitingIsAnswered` | FreeBSD/dns_tunneling.h:537-547 | As long as identifiers have not come back, that query is the one the response was for. |
| `DnsTunnel.RunAnswersQuery` | FreeBSD/dns_tunneling.h:537-592 | In every run: a response from the host to a query that waits for one adds exactly one answer, with its bytes, to the client that asked, whatever else the same pass brings. |
| `DnsUdpBooks.AnswerReachesItsClient` | FreeBSD/dns_tunneling.h:537-547 | Over any run with at most 2^32 queries, an answer with a query's identifier went to that query's client, and there is only one. |
| `DnsUdpBooks.ToldHasEntry` | FreeBSD/dns_tunneling.h:212-249 | Over any run with at most 2^32 queries, every query the host was told of and that is neither answered nor expired has its entry, and its identifier finds that entry. |
| `DnsUdpBooks.LiveIdsDistinct` | FreeBSD/dns_tunneling.h:212-230 | Live UDP entries have distinct identifiers for the first 2^32 queries. |
| `DnsIdentifiers.IdsRunOut` | FreeBSD/dns_tunneling.h:222-260 | One more and an identifier comes back. |
| `DnsIdentifiers.SameId` | FreeBSD/dns_tunneling.h:222-260 | Two numbers share an identifier exactly when they differ by a multiple of 2^32. |
| `DnsIdentifiers.TakenIsFirst` | FreeBSD/dns_tunneling.h:507-514 | Of messages sent in turn exactly those before the first the host does not take are delivered. |
| `DnsTcpConns.TcpConns.TcpAlloc` | FreeBSD/dns_tunneling.h:253-265 | The first free slot, and only it, changes: it gets the descriptor and the next identifier; if all are used nothing changes. |
| `DnsTcpConns.TcpConns.TcpLookup` | FreeBSD/dns_tunneling.h:267-274 | The first used slot with the identifier, if there is one. |
| `DnsTcpConns.TcpConns.TcpClose` | FreeBSD/dns_tunneling.h:276-283 | The descriptor is closed if it is still open, once, and the slot is shut; a stale slot stays shut; the descriptors stay partitioned between live connections and the rest. |
| `DnsTcpConns.TcpConns.HandleTcpAccept` | FreeBSD/dns_tunneling.h:449-468 | Every descriptor accept handed out became, in order, a connection in the first free slot, unless the table was full; then it was closed. Live slots are not touched. |
| `DnsTcpBooks.AllAreConnected` | FreeBSD/dns_tunneling.h:449-468 | While there is room, every descriptor that accept hands out becomes a live connection. |
| `DnsTcpConns.TcpConns.HandleTcpReadable` | FreeBSD/dns_tunneling.h:473-527 | The slot's reader forwards what there is under that connection's identifier: all complete requests of the bytes received, up to the end of the stream or a failed send; the connection stays exactly if neither came, and its slot then holds the unparsed tail. Nothing is answered. A stale slot is shut. |
| `DnsTcpConns.TcpConns.FrameResponse` | FreeBSD/dns_tunneling.h:555-565 | The buffer starts with the length in network order, followed by the response. |
| `DnsTcpConns.TcpConns.SendAll` | FreeBSD/dns_tunneling.h:125-138 | Success exactly if the sends together took every byte; what went out is what those before the first failing one took. |
| `DnsTcpBooks.EnoughIsSent` | FreeBSD/dns_tunneling.h:125-138 | Sends that take enough between them send everything. |
| `DnsTcpBooks.SentIsTotal` | FreeBSD/dns_tunneling.h:125-138 | What goes out is the sum of what the sends before the first failing one take, and no more than there is. |
| `DnsTcpConns.TcpConns.AnswerTcp` | FreeBSD/dns_tunneling.h:548-572 | A response goes to the first connection with its identifier: its framed bytes are appended to what was written there; or, if it is over 65535 bytes or cannot be sent in full, that connection is closed after the part that was sent. With no such connection nothing happens. |
| `DnsTunnel.RunWritesResponse` | FreeBSD/dns_tunneling.h:548-592 | In every run: a response from the host to a live connection, if the sends take it, is written to that connection behind its length, most significant byte first, and nothing is written to any other in that pass. |
| `DnsTcpBooks.FramedParses` | FreeBSD/dns_tunneling.h:555-570 | A framed response behind complete ones parses to one answer more. |
| `DnsTcpBooks.PartParses` | FreeBSD/dns_tunneling.h:564-569 | A response sent in part parses to none. |
| `DnsTcpBooks.ClientReadsAnswers` | FreeBSD/dns_tunneling.h:555-570 | Over any run, the bytes written to one TCP client, broken off or not, parse back to the responses written to it in full, in order; while it is connected nothing is left over. |
| `DnsTcpBooks.ResponseGoesToItsRequest` | FreeBSD/dns_tunneling.h:473-572 | Over any run with at most 2^32 connections, a response with the identifier of a request told to the host was written only to the connection on whose bytes that request was received. |
| `DnsTcpBooks.LateResponseIsDropped` | FreeBSD/dns_tunneling.h:548-570 | So a late response never reaches a later connection in the same slot. |
| `DnsTcpBooks.LiveIdsDistinct` | FreeBSD/dns_tunneling.h:253-265 | Live TCP connections have distinct identifiers for the first 2^32 connections. |
| `DnsTcpBooks.RoutedGrows` | FreeBSD/dns_tunneling.h:548-572 | Answering a connection takes nothing back of any connection's traffic, and gives up no slot but that one, by closing it. |
| `DnsTunnel.Tunnel.HandleChannelReadable` | FreeBSD/dns_tunneling.h:579-592 | A message that cannot be read stops the loop and answers nobody; one for UDP answers the first UDP client it names, one for TCP the first connection, any other nobody; histories only grow. |
| `DnsTunnel.Tunnel.EventPass` | FreeBSD/dns_tunneling.h:686-711 | One pass is the events of the polled descriptors, in order, each doing what its descriptor calls for: datagrams, attempts, the host's message, or a connection read or closed, stale slots included. Histories only grow, connections that hung up are closed at its end, and the loop stops exactly if the channel hung up or brought what cannot be read. |
| `DnsTunnel.Tunnel.PollSet` | FreeBSD/dns_tunneling.h:651-666 | Polled are the three own descriptors and exactly the live connections, each with its slot. |
| `DnsTunnel.Tunnel.OnHost` | FreeBSD/dns_tunneling.h:692-700 | The channel's event: broken or closed it stops the loop and changes nothing else. |
| `DnsTunnel.Tunnel.OnConnection` | FreeBSD/dns_tunneling.h:701-709 | A connection that hung up is closed, also if it was closed earlier in the pass; any other is read. |
| `DnsTunnel.Tunnel.OnePoll` | FreeBSD/dns_tunneling.h:668-711 | One turn of the loop: an interruption or a failure changes nothing, a timeout sweeps the UDP table, anything else is one pass. |
| `DnsTunnel.Tunnel.Run` | FreeBSD/dns_tunneling.h:643-723 | The polls are handled one after the other, none skipped, until one ends the loop. No query, answer, byte written or fate is taken back over the run, live entries survive until their query has a fate, and when the loop returns every descriptor handed out to the tunnel has been closed, with no slot in use. |
| `PortAllocations.LessIsStrictTotal` | src/linux/init/GnsPortTracker.h:52-92 | The key order is strict and total, and equivalence is equality. |
| `PortAllocations.LessIsTransitive` | src/linux/init/GnsPortTracker.h:52-92 | The key order is transitive. |
| `PortAllocations.EmplaceTable` | src/linux/init/GnsPortTracker.cpp:101 | Emplacing adds a missing port with its deadline and leaves an existing entry as it is: a repeated bind does not renew the deadline, whatever the comment at lines 263-265 says. |
| `PortAllocations.PortTracker.HandleRequest` | src/linux/init/GnsPortTracker.cpp:261-278 | A tracked port goes through without a request; another is asked for, and what is held grows exactly if the host grants it. |
| `PortAllocations.PortTracker.OnBind` | src/linux/init/GnsPortTracker.cpp:92-118 | After a bind the table, the requests and the history are as the host's answer says, and all of the tracker's invariants hold. |
| `PortAllocations.PortTracker.OnRefreshAllocatedPorts` | src/linux/init/GnsPortTracker.cpp:203-241 | Erasing while iterating equals one filter and update of the whole table; exactly the expired or seen-and-gone ports are asked back, in key order, and the release rule holds over the history. |
| `PortAllocations.PortTracker.Walk` | src/linux/init/GnsPortTracker.cpp:213-240 | The walk leaves the recursive filter of the map and sends one release for each port dropped. |
| `PortAllocations.RefreshedTable` | src/linux/init/GnsPortTracker.cpp:213-240 | The walk in key order is the filter-and-update of the map as a set of bindings. |
| `PortAllocations.ReleasedPorts` | src/linux/init/GnsPortTracker.cpp:215-232 | The released ports are exactly those the snapshot lacks whose deadline is gone or past, each once. |
| `PortAllocations.ReleaseRule` | src/linux/init/GnsPortTracker.cpp:205-232 | A port is released exactly if the snapshot lacks it and it was seen in an earlier snapshot since it was last granted, or the snapshot is more than 60 seconds younger than that grant. |
| `PortAllocations.HistoryIsRead` | src/linux/init/GnsPortTracker.cpp:205-232 | What the deadlines stand for, in the history itself: the last grant, and the snapshots after it. |
| `PortAllocations.ExplainedGrows` | src/linux/init/GnsPortTracker.cpp:99-101 | Every deadline is explained by the history: none once seen, else a minute after the grant, however often the port was bound again. |
| `PortAllocations.RequestsAlternate` | src/linux/init/GnsPortTracker.cpp:203-278 | For each port, granted allocations and releases alternate, starting with an allocation, and it is held after the odd ones. |
| `PortAllocations.HeldIsReserved` | src/linux/init/GnsPortTracker.cpp:219-231 | The host reserves a port if and only if the tracker holds it or the host has refused its release and granted or released it no more since. |
| `PortAllocations.HeldEqualsReserved` | src/linux/init/GnsPortTracker.cpp:219-231 | The two agree on all ports exactly if no refusal stands. |
| `PortAllocations.RefusedReleaseLeaks` | src/linux/init/GnsPortTracker.cpp:219-231 | Two requests after which the host reserves a port the tracker has forgotten. |
| `TrackerProtocol.WaitableValue.Post` | src/linux/init/waitablevalue.h:24-31 | One attempt of post: it stores exactly if the slot was empty. |
| `TrackerProtocol.WaitableValue.Get` | src/linux/init/waitablevalue.h:38-66 | One attempt of get or try_get: it takes what is there and empties the slot. |
| `TrackerProtocol.StepKeepsInv` | src/linux/init/GnsPortTracker.cpp:29-144 | Every step of every thread keeps the invariant of the three-thread system. |
| `TrackerProtocol.ExecutionKeepsInv` | src/linux/init/GnsPortTracker.cpp:29-144 | So every state of every interleaving satisfies it. |
| `TrackerProtocol.RefreshIsSafe` | src/linux/init/GnsPortTracker.cpp:29-59 | In every interleaving, failed listings included: no promise is satisfied twice, no future is taken twice, no worker is woken after its promise is gone, and each round is resumed and applied at most once. |
| `TrackerProtocol.AppliedWithoutBind` | src/linux/init/GnsPortTracker.cpp:127-133 | A snapshot is applied only in an iteration that handled no bind call, and it is the one main has just taken: that of the round whose worker still waits. |
| `TrackerProtocol.ReplacedWhileParked` | src/linux/init/GnsPortTracker.cpp:123-125 | The shared promise is replaced only while the worker waits. |
| `TrackerProtocol.WaitingWorkerIsKnown` | src/linux/init/GnsPortTracker.cpp:121-142 | Wherever the main loop is: the snapshot of a worker that waits is still to be taken, or the main loop holds it and will wake the worker. |
| `TrackerProtocol.PostsNeverWait` | src/linux/init/waitablevalue.h:24-31 | Neither post ever finds its slot full. |
| `TrackerProtocol.OneOutstanding` | src/linux/init/GnsPortTracker.cpp:61-66 | Of all the places a request or verdict can be in, exactly one is occupied while the dispatcher waits, and none otherwise. |
| `TrackerProtocol.RepliesMatchRequests` | src/linux/init/GnsPortTracker.cpp:280-305 | With any number of timeouts, the k-th reply read is the k-th verdict, on the k-th notification that needed one. |
| `TrackerProtocol.ResponsesAnswerTheirCalls` | src/linux/init/SecCompDispatcher.cpp:77-150 | Every received notification gets one response, with its own id: the error is the negated verdict given on it, and it goes on exactly if that verdict is 0; one that is not for the tracker carries its own result in the same way. |
| `TrackerProtocol.CallIsAnswered` | src/linux/init/GnsPortTracker.cpp:91-118 | A call in hand gets its verdict in main's next step and its reply in the one after, whatever the other threads do meanwhile. |
| `TrackerProtocol.ReadySnapshotIsApplied` | src/linux/init/GnsPortTracker.cpp:120-134 | A snapshot that is ready is taken and its promise replaced in main's next three steps, and the fourth applies it exactly if no bind call was handled. |
| `TrackerProtocol.HeldSnapshotResumes` | src/linux/init/GnsPortTracker.cpp:136-142 | From there, with something to deallocate, main's next two steps wake the worker of that very round, |
| `TrackerProtocol.HeldSnapshotIsKept` | src/linux/init/GnsPortTracker.cpp:136-142 | and without, the snapshot is kept and the worker stays parked. |
| `TrackerProtocol.DispatcherCanMove` | src/linux/init/SecCompDispatcher.cpp:77-150 | The dispatcher is never stuck except for a reply that is still to come: neither post waits. |
| `TrackerProtocol.PostedCanBeTaken` | src/linux/init/GnsPortTracker.cpp:61-89 | A call that has been posted can be taken at main's next read. |
| `TrackerProtocol.WorkerCanMove` | src/linux/init/GnsPortTracker.cpp:29-59 | The worker is never stuck except while it waits to be woken. |
| `TrackerProtocol.MainCanMove` | src/linux/init/GnsPortTracker.cpp:120-142 | Main is never stuck on a snapshot, whose value and future are there whenever it needs them. |
| `RelayTracker.CmpIsTotalOrder` | FreeBSD/port_tracker.h:139-146 | The comparator's zero is equality and its sign is antisymmetric. |
| `RelayTracker.CmpIsTransitive` | FreeBSD/port_tracker.h:139-146 | The comparator is transitive. |
| `RelayTracker.OneArrangement` | FreeBSD/port_tracker.h:152 | The ascending arrangement is unique, so it does not matter how qsort finds it. |
| `RelayTracker.DedupSort` | FreeBSD/port_tracker.h:149-160 | In place: the result is strictly increasing and has exactly the input's elements; the array beyond is untouched. |
| `RelayTracker.DedupSorted` | FreeBSD/port_tracker.h:153-158 | The loop drops exactly the repetitions. |
| `RelayTracker.DedupStrict` | FreeBSD/port_tracker.h:153-158 | Of an ascending array it leaves a strictly increasing one. |
| `RelayTracker.DiffIsDifference` | FreeBSD/port_tracker.h:386-424 | The walk over two strictly increasing arrays says one Start for each entry of current\old, one Stop for each of old\current and nothing about any other. |
| `RelayTracker.PortTracker.Walk` | FreeBSD/port_tracker.h:391-424 | The two-index loop terminates having attempted exactly those messages. |
| `RelayTracker.PortTracker.Poll` | FreeBSD/port_tracker.h:378-440 | A failed collection changes nothing; otherwise the differences are attempted and the new snapshot replaces the old one, even if sends fail. |
| `RelayTracker.PollInStep` | FreeBSD/port_tracker.h:378-440 | Over whole runs the Starts and Stops of each entry alternate beginning with Start, and it is tracked after the odd ones. |
| `RelayTracker.MirrorIsTracked` | FreeBSD/port_tracker.h:401-429 | After every poll the set the host builds agrees with the tracker on an entry if and only if an even number of sends about it have failed since the last that succeeded. |
| `RelayTracker.MirrorIsWhole` | FreeBSD/port_tracker.h:401-429 | With no failed send it is the tracker's set. |
| `RelayTracker.LostStart` | FreeBSD/port_tracker.h:401-429 | One lost Start leaves the host without an entry that is tracked. |
| `RelayTracker.MirrorFollows` | FreeBSD/port_tracker.h:401-421 | An entry is in the host's set exactly after an odd number of messages about it, not counting those lost since the last that arrived. |
| `NtfsEscape.RoundTrip` | src/linux/init/escape.cpp:196-340 | For every NUL-free path, escaping, turning separators back and unescaping gives the path back if and only if it contains no three bytes that the decoder accepts. |
| `NtfsEscape.EscapeOne` | src/linux/init/escape.cpp:24-157 | A slash becomes a backslash; a control character, double quote, asterisk, colon, angle bracket, question mark, backslash or bar becomes the UTF-8 form of the code point 0xF000 above it; any other byte stays. |
| `NtfsEscape.EscapedIsLegal` | src/linux/init/escape.cpp:220-253 | No escaped path holds a control character, a colon, a slash or another character that NTFS refuses. |
| `NtfsEscape.LegalPathStays` | src/linux/init/escape.cpp:220-253 | A path with none of these characters changes in its slashes only. |
| `NtfsEscape.AcceptedWindows` | src/linux/init/escape.cpp:328-336 | The three bytes the decoder accepts are exactly those that agree with the escape of such a character in the lead byte, two bits of the second and six of the third. |
| `NtfsEscape.LeadByteOnlyLeads` | src/linux/init/escape.cpp:328-332 | No accepted window has 0xEF in its second or third place, so none straddles a raw 0xEF and a fresh escape. |
| `NtfsEscape.NoWindowAtPlainByte` | src/linux/init/escape.cpp:225-251 | Escaping what follows a byte never makes that byte the start of a window. |
| `NtfsEscape.UnescapeLinux` | src/linux/init/escape.cpp:220-340 | A path and its escaped form decode to the same. |
| `NtfsEscape.PackedDecodes` | src/linux/init/escape.cpp:247-249 | The bit packing loses nothing: the decoder's unpacking gives the character back. |
| `NtfsEscape.UnescapeLeavesNoWindow` | src/linux/init/escape.cpp:316-340 | No decoded string holds a decodable window. |
| `NtfsEscape.UnescapeIdempotent` | src/linux/init/escape.cpp:316-340 | Unescaping a second time changes nothing. |
| `NtfsEscape.UnescapeShrinks` | src/linux/init/escape.cpp:316-340 | Decoding changes a string exactly if it holds a window, and then shortens it. |
| `NtfsEscape.EscapePathForNtLength` | src/linux/init/escape.cpp:278-296 | The computed length is that of the escaped path. |
| `NtfsEscape.EscapePathForNt` | src/linux/init/escape.cpp:220-253 | Fills exactly that many bytes with the escaped path and writes nothing else. |
| `NtfsEscape.UnescapePathInplace` | src/linux/init/escape.cpp:316-340 | In place: the result is the one-pass decoding, terminated; it ends and touches and reads nothing beyond the terminator. |
| `NtfsEscape.ShiftDown` | src/linux/init/escape.cpp:334-336 | The rest moves down two bytes, terminator included. |
| `NtfsEscape.CanonicalisePathSeparator` | src/linux/init/util.cpp:368-408 | In place: separators become the given one and doubled ones past the start are dropped. |
| `NtfsEscape.CanonicalIsTidy` | src/linux/init/util.cpp:368-408 | The result has separators of one kind, and past the start none behind another, |
| `NtfsEscape.CanonicalKeepsNames` | src/linux/init/util.cpp:368-408 | and everything else in its order. |
| `NtfsEscape.CanonicalKeeps` | src/linux/init/util.cpp:383-405 | A separator at the start, in second place or behind a name is kept. |
| `NtfsEscape.CanonicalEscape` | src/linux/init/util.cpp:3081-3122 | Canonicalising an escaped path is escaping the path without its doubled slashes. |
| `NtfsEscape.TranslationRoundTrip` | src/linux/init/util.cpp:3081-3124 | A path survives translation to a Windows path and back, prefixes aside, if and only if it is not empty (nothing behind the prefix becomes a slash), has no accepted window and no doubled slash past its start. |
| `NtfsEscape.TranslateFromWindows` | src/linux/init/util.cpp:3089-3124 | The way back, in place: separators made canonical, then decoded, and a slash if nothing is left. |
| `ConsoleSession.Session.Run` | FreeBSD/hvbridge.c:689-1151 | Over any wakeups, none skipped: each adds promptly what it must (a child past its deadline is killed at the first wakeup after it) and nothing else, and the loop goes on until it is told to terminate or the child is reaped. When it returns the child has been reaped exactly once; no signal after the reap; SIGHUP, deadline and escalation at most once and in that order, not before the deadline; ExitStatus at most once, after the reap and not after a disconnect; the code returned is the one reported, or -1. |
| `ConsoleSession.StepwiseIsOrdered` | FreeBSD/hvbridge.c:781-985 | Actions taken where the flags allow them never follow one that excludes them. |
| `ConsoleSession.StepwiseIsGrounded` | FreeBSD/hvbridge.c:817-985 | An exit status has a reap before it, SIGHUP a disconnect, an escalation a deadline that has passed. |
| `ConsoleSession.StepwiseIsLawful` | FreeBSD/hvbridge.c:781-1138 | At return: reaped, SIGHUP and a deadline after every disconnect, and without a disconnect or a kill on the way out the host was told the status. |
| `ConsoleSession.FlagsShow` | FreeBSD/hvbridge.c:729-733 | The flags forget nothing that was done. |
| `ConsoleSession.ValuesRecorded` | FreeBSD/hvbridge.c:729-733 | The deadline and the exit code are those of the one action that set them. |
| `ConsoleSession.Session.Wake` | FreeBSD/hvbridge.c:755-1127 | One iteration does exactly the specified reaction, and the loop goes on exactly when it should. |
| `ConsoleSession.Session.Poll` | FreeBSD/hvbridge.c:755-1127 | The loop is that reaction repeated up to the wakeup that leaves it. |
| `ConsoleSession.Session.React` | FreeBSD/hvbridge.c:866-1126 | The events of an iteration: a reaped child ends it, otherwise the control channel and the local relay are served; the relay still writes after a disconnect. |
| `ConsoleSession.Session.Escalate` | FreeBSD/hvbridge.c:817-834 | SIGKILL exactly when the log has a disconnect, a deadline that has passed, no SIGKILL and no reap; a dead child is reaped at once. |
| `ConsoleSession.ReactionIsPrompt` | FreeBSD/hvbridge.c:755-1127 | By what the log says, every wakeup adds what it must: SIGKILL first when it is due, and the reap of a dead child next; SIGHUP and a deadline five seconds on when the host hangs up or asks for the end; the reap and the exit status when the child is collected; and none of these otherwise. |
| `ConsoleSession.Session.ChildExited` | FreeBSD/hvbridge.c:866-924 | A child that is collected ends the session, and ExitStatus is sent exactly if the host is connected. |
| `ConsoleSession.Session.StartShutdown` | FreeBSD/hvbridge.c:937-947 | SIGHUP once and a deadline five seconds on. |
| `ConsoleSession.Session.HandleControl` | FreeBSD/hvbridge.c:926-1061 | A closed channel or TerminateInstance starts the shutdown, an unknown message is refused, others change nothing. |
| `ConsoleSession.Session.Conclude` | FreeBSD/hvbridge.c:901-921 | The status is sent only to a host that is still there. |
| `ConsoleSession.Session.KillAndReap` | FreeBSD/hvbridge.c:1129-1138 | Whatever state the loop was left in, the child is killed and reaped once. |
| `MessageReader.Reader.TryRead` | FreeBSD/hvbridge.c:505-526 | Disconnected exactly on a closed or failed socket (even with a whole message buffered) or a size in the header below 12 or above the capacity; available exactly if a whole message is then at the front; a full buffer never asks for more; no byte is lost. |
| `MessageReader.LostAtEnd` | FreeBSD/hvbridge.c:505-526 | A whole message in a buffer with room is reported lost exactly if recv then finds the end; in a full buffer it never is. |
| `MessageReader.HeaderLostAtEnd` | FreeBSD/hvbridge.c:511-512 | A concrete message of twelve bytes that is lost. |
| `MessageReader.Reader.Consume` | FreeBSD/hvbridge.c:528-536 | Drops the given number of bytes from the front, or all there are. |
| `MessageReader.Reader.Take` | FreeBSD/interop_server.h:254-287 | A message consumed at its own size comes off the front; all that were consumed are a prefix of the stream's framing. |
| `MessageReader.ConsumedIsFraming` | FreeBSD/interop_server.h:240-287 | For every capacity of at least 12: the consumed messages and the framing of what is buffered are the framing of all bytes received. |
| `MessageReader.FramingIsUnique` | FreeBSD/interop_server.h:268-277 | Any way of cutting messages off the front of a stream is its framing. |
| `MessageReader.TakeStep` | FreeBSD/hvbridge.c:518-536 | Consuming one message keeps consumed bytes plus buffer equal to the bytes received. |
| `OscSniffer.BgColorTracker.FeedByte` | FreeBSD/terminal_notify.h:307-364 | A byte completes an OSC string exactly if the parse of the whole stream gains one, and it is the bytes collected. |
| `OscSniffer.BgColorTracker.Feed` | FreeBSD/terminal_notify.h:307-364 | After any stream, in any pieces and with resets between, the tracked colour is that of the parse of the whole stream, and the buffer never holds more than 255 bytes. |
| `OscSniffer.OscIsTracked` | FreeBSD/terminal_notify.h:248-364 | Wherever nothing is half read, feeding any OSC string of at most 255 bytes, with either terminator, resets, sets or keeps the tracked colour in just that way. |
| `OscSniffer.ColorsAreTracked` | FreeBSD/terminal_notify.h:192-364 | After OSC 11 with a colour in any of its three written forms the tracked colour is that colour. |
| `OscSniffer.NextIsSound` | FreeBSD/terminal_notify.h:310-362 | One step of the four-state machine moves bytes from the stream into the state without changing the parse of the whole. |
| `OscSniffer.EmittedIsParsed` | FreeBSD/terminal_notify.h:307-364 | Every OSC string of at most 255 bytes, with either terminator and any text between, is found, in order. |
| `OscSniffer.TooLongIsText` | FreeBSD/terminal_notify.h:338-344 | A payload of 256 bytes is given up at that byte, and what follows is read as text. |
| `OscSniffer.NoOscInsideOsc` | FreeBSD/terminal_notify.h:355-361 | ESC inside a payload followed by ] drops it and does not open another. |
| `OscSniffer.SeenIsParsed` | FreeBSD/terminal_notify.h:307-364 | What the sniffer has seen is the parse of what it was fed. |
| `OscSniffer.BgColorTracker.ResetSniffer` | FreeBSD/terminal_notify.h:186-190 | A reset discards the half-read string and keeps the colour. |
| `OscSniffer.BgColorTracker.ProcessOsc` | FreeBSD/terminal_notify.h:248-298 | 111, alone or before a semicolon, resets the colour; 11; before a readable colour sets it; anything else keeps it, although unchanged colours are not written again. |
| `OscColor.BackgroundIsLast` | FreeBSD/terminal_notify.h:248-298 | There is a colour exactly if the last effective OSC string was a set, and it is that one's; so there is none if none came or a reset came after. |
| `OscColor.XFormRoundTrip` | FreeBSD/terminal_notify.h:201-220 | A colour written rgb:RR/GG/BB is read back. |
| `OscColor.HexFormRoundTrip` | FreeBSD/terminal_notify.h:223-232 | A colour written #RRGGBB is read back. |
| `OscColor.ShortFormDoubles` | FreeBSD/terminal_notify.h:233-241 | In #RGB each digit stands for two. |
| `OscColor.OtherColorsAreRefused` | FreeBSD/terminal_notify.h:192-244 | With a number sign only the lengths of six and three digits are read; otherwise only the X11 form. |
| `OscColor.ComponentsAreBytes` | FreeBSD/terminal_notify.h:192-244 | The documented range 0-255 of a parsed colour holds if and only if it is not #RRGGBB with a minus sign and a digit other than 0 for a component. |
| `OscColor.NegativeComponent` | FreeBSD/terminal_notify.h:192 | In #-1-1-1 all three components exceed 255. |
| `OscColor.NulEnds` | FreeBSD/terminal_notify.h:251 | Writing NUL behind the payload makes the C string exactly the bytes collected, up to a NUL of their own. |
| `WslPath.DriveThereAndBack` | FreeBSD/wslpath.c:225-413 | to_windows undoes to_unix on X:\r if and only if X is upper-case and r has no slash. |
| `WslPath.UncThereAndBack` | FreeBSD/wslpath.c:225-413 | to_windows undoes to_unix on \\u if and only if u has no slash and, where u starts a long path prefix, what is left of it is relative, the current directory itself translates to \\? and the joined path fits. |
| `WslPath.LongThereAndBack` | FreeBSD/wslpath.c:225-329 | The same for long paths alone: one comes back exactly if it has no slash and the current directory restores it. |
| `WslPath.MountedThereAndBack` | FreeBSD/wslpath.c:225-413 | In both modes to_unix undoes to_windows on root/d and root/d/r if and only if d is lower-case and r has no backslash. |
| `WslPath.ShareThereAndBack` | FreeBSD/wslpath.c:225-413 | to_unix undoes to_windows on root/wsl/u if and only if u has no backslash and, in Windows mode, does not start with ?/. |
| `WslPath.TrailingSlashIsLost` | FreeBSD/wslpath.c:285-297 | A slash with nothing behind the drive letter does not come back. |
| `WslPath.ByFirstName` | FreeBSD/wslpath.c:250-329 | Below the root the first component decides: wsl is a server, a single letter its drive, and any other name, however it begins, leaves the path as it is but for its slashes. |
| `WslPath.OutsideTheRoot` | FreeBSD/wslpath.c:318-329 | Elsewhere only the slashes change. |
| `WslPath.OthersToUnix` | FreeBSD/wslpath.c:341-413 | A path that names neither a server nor a drive changes in its backslashes only; one relative on its drive goes below the drive's directory. |
| `WslPath.GainsOne` | FreeBSD/wslpath.c:225-413 | There and back, any path gains one character at most. |
| `WslPath.ToWindows` | FreeBSD/wslpath.c:225-329 | Fails exactly if the path cannot be made absolute or the result does not fit; otherwise the buffer holds it. |
| `WslPath.ToUnix` | FreeBSD/wslpath.c:341-413 | Fails exactly if the result does not fit; otherwise the buffer holds it. |
| `WslPath.ReplaceSep` | FreeBSD/wslpath.c:205-212 | In place, from an offset to the NUL, and nothing else. |
| `WslPath.ReplaceBack` | FreeBSD/wslpath.c:205-212 | Replacing there and back restores a string exactly if it did not contain the other separator. |

## Left out

- TcpSlot: the slot keeps the bytes its reader holds between events; each event sets up a `Connection` with them, and no reader object outlives the event.
- Tunnel.Run: starts where polling starts; failures to bind the listeners and the caller's use of the channel descriptor are not modelled, nor that datagrams over 4096 bytes arrive cut.
- SendAll: what each send takes is given as a list, and waiting for room is not a step of its own.
- `HandleTcpDnsResponse`, `HandleNewTcpConnection` and the epoll loop of the Linux DNS server: they look up, accept and dispatch as on FreeBSD, with a map for the array.
- DnsServer.HandleUdpDnsResponse: counts a response as sent whether or not sendto succeeds.
- AnswerReachesItsClient: bounded by 2^32 queries, as ToldHasEntry, WaitingIsAnswered, RunAnswersQuery, RunWritesResponse, ResponseGoesToItsRequest and the lemmas on live identifiers are by as many clients, because the identifier is a 32-bit counter; `IdsRunOut` shows that the bound is needed.
- Session.Run: the loop ends with the wakeups given to it, which may be any number; that a killed child dies, so that a blocking waitpid returns it, is taken from the operating system. The drain of the terminal's output is left out.
- PTY, stdin and channel traffic of a console session, window and font sizes: they do not touch the child's life.
- QSort: the library's sort is known by its result only, the ascending arrangement of the input.
- WaitableValue: mutex and condition variable are not modelled; post and get are the attempts made while the lock is held. In `TrackerProtocol` the two slots are options changed by the same attempts.
- Data races inside `std::promise::set_value` and allocation failures.
- The system call arguments behind a bind request (`GetCallInfo`): a notification either needs a verdict from the tracker or does not.
- ToUpper, ToLower, Alpha: the classes of the C locale; the program sets the user's locale.
- Reading the mount root from the configuration; it, the current directory and PATH_MAX are parameters of the translators.
- `gns_engine.h`, the network manager, drvfs, plan9, binfmt, timezone and console setup: they call other programs or code that is not in this repository.
- `wsl_conf_parser.h`, `config_parser.h`, `network_config.h`, `EnvironmentBlock`: would add only easy members.

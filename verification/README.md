# An SSTP VPN client, modelled and proved in Dafny

This project models the protocol stack of the `sstp-proto` crate, a client for Microsoft's Secure
Socket Tunneling Protocol, and proves what the stack promises. It covers:

- **wire formats**: SSTP packets and their incremental reader, the HTTP-like response before them,
  PPP frames, LCP/IPCP/CHAP frames and options (`Packet`, `Http`, `HttpLaws`, `Streams`, `Ppp`, `Cp`,
  `ChapFsm`), proved equal to a reference syntax in literal numbers (`RfcSyntax`, `Conformance`);
- **cryptographic byte work**: DES key expansion, MS-CHAPv2 responses, MPPE keys and the
  crypto-binding message (`Chap`, `Mppe`, `Cmac`, `CmacLaws`), over primitives that are arbitrary
  functions of the right output size (`Primitives`), so every theorem holds for whatever MD4, SHA,
  DES and HMAC compute; proved equal to reference definitions written from the standards (`Rfc`, `RfcText`);
- **the negotiation automata** LCP and IPCP and the half they share (`OwnOptions`, `Lcp`, `LcpLaws`,
  `Ipcp`, `IpcpLaws`, `Negotiation`, `NegotiationTable`), and that the engine runs them so (`EngineNegotiation`);
- **the handshake engine** (`Engine`), its replies from any state (`Replies`, `ReplyTable`, `ReplyLaws`), its guarantees
  over every run (`EngineRuns`, `EngineLaws`, `WireReports`, `Sizes`), two runs that a server which logs in
  too early or twice can cause (`EarlySuccess`), and its completeness against an honest server (`Server`,
  `Handshake`, `Completeness`);
- **the connection loop** (`Connection`, `ConnectionTable`, `ConnectionLaws`, `ConnectionRuns`, `ConnectionStreams`), the honest
  server at its other end (`HonestConnection`) and the tunnel through it (`Tunnel`).

## How the model is built

The structs the code updates in place are classes (`PacketReader`, `Lcp`, `Ipcp`, `Engine`,
`Connection`) with the same fields. Each method is proved to compute, on the class's `Model()`, a
function on values (`NextOf`, `Lcp.Receive`, `Ipcp.Receive`, `OnPacket`, `OnRead`, ...). Loops and
buffers of the encoders and decoders are methods with loops, proved equal to the functions of the
same format (`BuildCtrl` and `EncodeCtrl`, `DecodePacket` and `Decode`, ...). The theorems are about
those functions, over all inputs and all runs.

Bytes are integers below 256; every narrowing cast of the code (`as u8`, `as u16`, `wrapping_add`) is
written out, and no theorem about sizes assumes that a cast keeps its value. Random
numbers, the outcome of creating the tunnel interface and the order in which the loop is woken are
inputs, so the theorems hold for all of them. A failing `expect` is the reply `Panicked`.

## What is proved, in short

- **Conformance.** For every buffer, the client's readers agree with the reference syntax, errors included; for every
  packet, frame and option list, its writers give the reference's octets, those too long for their length field included.
  From every state, every message is answered as a table says that names neither the client's functions nor its
  constants: the new state, and the reply event by event in octets on the wire, with the hashes, keys and responses of
  the reference definitions. The connection loop follows a table of the same kind, which says why it ends.
- **Completeness.** For every choice of primitives, nonce, hash bitmask, ASCII password, set of rejected
  option kinds, assigned addresses, and every order in which an honest server interleaves its own
  requests with its answers and with any number of keep-alives, echo requests and frames of other
  protocols: no reply is a failure, every one of those asides is answered at once, after at most ten server moves
  and the asides nothing is left to do, and then the client is established with exactly the assigned addresses and the
  server accepts the CONNECTED message with keys and a MAC it computed itself. The server reads and writes by the
  reference syntax and computes by the standards' definitions. The same
  bytes, behind any good HTTP response and cut into reads in any way, make the connection loop write
  exactly those packets and bring the interface up with those addresses.
- **Safety over every run.** Established is never reported more often than Successes verified; every
  CONNECTED binds the first accepted nonce and the latest keys and comes right before Established; each
  reported address is that of the latest acknowledged request on the wire that asked for one of its kind,
  and the report is exactly the last request if and only if no acknowledged one asked for more; no phase
  is lost; the engine panics exactly when IPCP comes up in a run that verified a Success before accepting a CONNECT_ACK.
- **Streams.** What a connection does depends on the bytes it reads and not on how they are cut into
  reads; IP packets of up to 65527 bytes come out of the other end as they went in.
- **Negotiation.** In every run one request for each start, Nak and Reject, and an acknowledgement by answer
  N + 4 of a server that Naks N times; lockstep over a FIFO exactly while no automaton is started with
  something under way; an answer to an earlier request of the run is taken for a current one exactly when a
  multiple of 256 identifiers was used since. The engine's own automata go through such runs.
- **Sizes.** Which packets are answered with truncated length fields, in every run and exactly. None of up to
  52429 bytes is, with user names of up to 65473 bytes, and both bounds are exact.

## Where the code falls short of what one would expect

Each of these is a theorem here. Where a property fails for some inputs only, an if-and-only-if says for which:

- The HTTP parser's comment (`sstp-proto/src/http.rs:40-46`) foresees a server that pipelines SSTP bytes
  behind its headers. The loop pushes those bytes into the reader but drains the reader only after a
  further read, so a pipelined packet waits for one and is lost if the server closes
  (`Streams.ChunkingIndependence`, `Streams.PipelinedPacketIsStranded`).
- The messages of the `expect`s (`sstp-proto/src/engine.rs:326-332`) claim an order of the protocol that
  `handle_chap` does not check: a Success verified before CONNECT_ACK leads to a panic when IPCP comes up
  (`EngineLaws.PanicsExactlyWhenEarly`, `EarlySuccess.EarlySuccessPanics`).
- A server that acknowledges an address and then rejects it, or Naks it with something that is no address,
  leaves the old address in the report (`IpcpLaws.StaleAfterRevision`, `IpcpLaws.StaleReportHappens`),
  although the field is documented as an acknowledged address (`sstp-proto/src/ipcp.rs:33-35`). After an
  acknowledgement the report is exactly the request if and only if nothing was reported before under a kind
  the request asks no address for (`IpcpLaws.AckIsExact`; over runs `WireReports.ReportIsOnTheWire`).
- Each verified Success starts IPCP again, and `start` (`sstp-proto/src/ipcp.rs:86-88`) leaves our side marked
  as acknowledged. With a second Success two things can be under way at once
  (`Negotiation.LockstepWhenStartedIdle`), and CONNECTED and Established follow at once although the new
  request is unanswered (`EngineLaws.RestartReportsAtOnce`, with a run in `EarlySuccess.SecondSuccessReports`). When Established is reported, the last request
  has been acknowledged if and only if no Success verified since the latest acknowledgement
  (`WireReports.ReportIsOnTheWire`).
- An LCP Nak may be longer than the request it answers, since a 4-byte authentication option is countered
  by a 5-byte one; a request in a packet of 52430 bytes is answered with a packet whose length field is
  truncated (`Sizes.BoundIsExact`). The answers to a packet are whole if and only if what they carry fits
  65523 data bytes, or the engine gives up and drops them (`Sizes.AnswersAreWhole`). The families that fail: an
  LCP request whose counter-proposals, five bytes for an authentication and six for a magic number, are longer;
  an LCP or IPCP request whose refused options are, or that is acceptable and itself longer; a longer
  Echo-Request; a longer frame of a protocol that is not spoken, counted from its protocol number; and any
  Challenge when the user name is longer than 65473 bytes. All but the counter-proposals, the quoted protocol and the
  user name need a frame without the Address/Control prefix to arrive at all.
- The two encodings of the password, UTF-16LE for the response and doubled UTF-8 bytes for the MPPE keys,
  agree exactly for ASCII passwords (`Primitives.PasswordEncodingsAgree`); the code says so itself. For all hash
  functions the keys are the standard's if and only if the password is ASCII (`Rfc.KeysAreStandardExactlyForAscii`).
- `verify_success` is documented as a prefix match (`sstp-proto/src/chap_fsm.rs:139-142`); the code compares
  the whole first word, ignoring case (`ChapFsm.VerifiedMeansExpected`).
- The branches for a peer that requires another authentication method (`sstp-proto/src/engine.rs:240`) and
  for a Response that cannot be built (`sstp-proto/src/engine.rs:277`) are taken in no run
  (`EngineLaws.TwoBranchesNeverTaken`).

## Model

| member | source | states |
|---|---|---|
| Completeness.HonestServerSucceeds | sstp-proto/src/engine.rs:140-339 | every sequence of moves open to an honest server has at most ten moves besides its keep-alives, echo requests and frames of other protocols, none is answered with a failure or panic, each of those asides is answered at once, the server runs out of moves exactly when the client is established, and then with exactly the assigned addresses and a CONNECTED the server accepts; for ASCII passwords, user names that fit a packet and different LCP magic numbers |
| Completeness.EveryMoveKeepsTrack | sstp-proto/src/engine.rs:172-339 | each move of the server keeps a joint invariant of client and server and strictly lowers the number of moves left |
| Completeness.AsideHeard | sstp-proto/src/engine.rs:162-219 | a keep-alive, an echo or a frame of another protocol is answered at once, as the server checks, in every phase of an honest handshake, and leaves both sides as they were but for an identifier |
| Completeness.BindingAccepted | sstp-proto/src/engine.rs:326-336 | the octets, announced hash, nonce, certificate hash and MAC of CONNECTED pass the check of a server that picks the hash from its own bitmask and derives its own keys as RFC 3079 says |
| Completeness.ResponseIsRight | sstp-proto/src/chap_fsm.rs:115-137 | the server finds our Response correct and answers with the genuine authenticator response |
| Handshake.LcpReplied | sstp-proto/src/lcp.rs:125-143 | an honest answer to our LCP request either removes everything refused and draws a new request, or brings our side up |
| Handshake.IpcpReplied | sstp-proto/src/ipcp.rs:119-138 | an honest answer to our IPCP request first removes what is refused, then assigns what differs, then is acknowledged with the expected addresses reported |
| Handshake.AdoptedIsAssigned | sstp-proto/src/ipcp.rs:167-173 | taking over a Nak's suggestions leaves every option with its assigned value and drops none |
| HonestConnection.HonestServerComesUp | sstp-proto/src/connection.rs:148-259 | every play of an honest server, its bytes behind any good response and cut into reads in any way with one behind the headers: the loop writes CONNECT_REQ and exactly the client's packets of the play; the interface is up, reported last, with the assigned addresses, exactly once the server has no move left; the connection ends instead exactly if no address was assigned or the interface cannot be created |
| HonestConnection.PlayIsHandled | sstp-proto/src/connection.rs:203-257 | from any point of an honest handshake, one pass over the server's remaining bytes leaves engine, interface and writes as the play says, with no byte left |
| EarlySuccess.EarlySuccessPanics | sstp-proto/src/engine.rs:254-337 | for all credentials and any packet that carries a well-formed Challenge, four packets without CONNECT_ACK make the engine panic |
| EarlySuccess.SecondSuccessReports | sstp-proto/src/engine.rs:172-337 | a run from the initial state, for all credentials, CONNECT_ACKs and Challenges: after the second verified Success an empty IPCP payload draws CONNECTED and Established while the request just sent, the second, is unanswered |
| EngineNegotiation.EngineNegotiates | sstp-proto/src/engine.rs:172-339 | in every run the engine's LCP and IPCP are where runs of the automata from their initial states are, with LCP started once if a CONNECT_ACK was accepted and IPCP as often as a Success verified |
| EngineNegotiation.EngineRequests | sstp-proto/src/engine.rs:172-339 | in every run of the engine: LCP requests are one for an accepted CONNECT_ACK and one per effective Nak or Reject, IPCP requests one per verified Success and one per effective Nak or Reject; identifiers are numbered accordingly |
| EngineLaws.PanicsExactlyWhenEarly | sstp-proto/src/engine.rs:323-332 | in every run a step panics if and only if IPCP comes up after a Success was verified before any accepted CONNECT_ACK |
| EngineLaws.AckFirstNeverPanics | sstp-proto/src/engine.rs:326-332 | no run that accepted CONNECT_ACK before the first verified Success ever panics |
| EngineLaws.EstablishedIsEarned | sstp-proto/src/engine.rs:260-337 | in every run: Established events (plus one while IPCP runs) are at most the verified Successes, those at most the handled ones, and those (plus one while a response is pending) at most the answered Challenges |
| EngineLaws.VerifiedAgainstAnswer | sstp-proto/src/engine.rs:281-290 | a Success verifies only against the response sent to the latest answered Challenge, computed from the stored challenge |
| EngineLaws.PhaseNeverLost | sstp-proto/src/engine.rs:172-339 | in every run the phase goes back only from Established to Ipcp, exactly on a verified Success |
| EngineLaws.ConnectedBinds | sstp-proto/src/engine.rs:323-337 | in every run a CONNECTED is sent only right before Established and binds nonce and hash of the first accepted CONNECT_ACK, the matching certificate hash and the keys of the latest verified Success; at most one lifecycle event per list, and last |
| EngineLaws.IpcpIsDriven | sstp-proto/src/engine.rs:280-313 | from every state, the IPCP automaton takes each IPCP frame, is started by each verified Success, and is otherwise left alone |
| EngineLaws.RestartReportsAtOnce | sstp-proto/src/engine.rs:288-337 | with IPCP up, a further verified Success is followed by CONNECTED and Established on any undecodable IPCP payload, with the new request unanswered |
| EngineLaws.TwoBranchesNeverTaken | sstp-proto/src/engine.rs:236-278 | in no run does the engine give up because of another authentication method or an unbuildable Response |
| Replies.ReplyShape | sstp-proto/src/engine.rs:140-345 | from every state, a packet that completes IPCP is answered with the IPCP frames and then CONNECTED and Established, or a panic; any other with traces, deliveries and packets of five kinds, ended by at most one event that gives up; only IPCP frames and Successes touch IPCP |
| Replies.StepIsDisciplined | sstp-proto/src/engine.rs:140-345 | from every state, an event list holds at most one lifecycle event and it is last, sends no IP packet, and sends CONNECTED exactly right before Established |
| EngineLaws.ReportedAddressesWereRequested | sstp-proto/src/engine.rs:336 | in every run Established reports, for each address option of the acknowledged request, the requested address |
| WireReports.WatchFollows | sstp-proto/src/ipcp.rs:86-189 | in every run the options desired are those decoded from the last IPCP Configure-Request among the bytes sent, each reported field is the address in the latest acknowledged one that asked for one of its kind, and while our side is up the last one has been acknowledged if and only if no Success verified since |
| WireReports.ReportIsOnTheWire | sstp-proto/src/engine.rs:336 | in every run, with each Established: every reported address is that of the latest acknowledged request on the wire asking for one of its kind; the report equals the last request if and only if no acknowledged request asked for more; the last request has been acknowledged if and only if no Success verified since the latest acknowledgement |
| EngineRuns.EveryRunKeepsInv | sstp-proto/src/engine.rs:140-339 | after every sequence of packets the engine's fields are what an observer of the packets would have noted: binding, pending response, challenge, keys, and both automata's invariants |
| Conformance.ReadsMessages | sstp-proto/src/packet.rs:223-267 | every buffer decodes to the message a reference parser of the [MS-SSTP] section 2.2 syntax reads (version 0x10, C bit, length, message types 1 to 9, attribute types 0 to 4), or to the same error |
| Conformance.WritesControlMessages | sstp-proto/src/packet.rs:200-218 | for every message type and every list of attributes the encoder gives the reference's octets, the length modulo 65536 |
| Conformance.WritesDataMessages | sstp-proto/src/packet.rs:188-196 | every data packet has the reference's octets |
| Conformance.ReadsPpp | sstp-proto/src/ppp.rs:29-93 | every frame decodes to the protocol and information the reference reads, by the protocol numbers 0x0021, 0x8021, 0xC021, 0xC023 and 0xC223, with and without Address and Control octets |
| Conformance.WritesPpp | sstp-proto/src/ppp.rs:45-78 | every frame is written as FF 03, protocol number, information |
| Conformance.ReadsControl | sstp-proto/src/cp.rs:45-100 | every LCP, IPCP or CHAP payload decodes to code, identifier and data as the reference reads them, by the codes 1 to 11 and 1 to 4 |
| Conformance.WritesControl | sstp-proto/src/chap_fsm.rs:24-60 | codes, identifier, length and data are written as the reference writes them, for LCP, IPCP and CHAP |
| Conformance.ReadsOptions | sstp-proto/src/cp.rs:131-144 | every buffer decodes to the options the reference reads |
| Conformance.WritesOptions | sstp-proto/src/cp.rs:115-127 | every list of options is written as the reference writes it |
| NegotiationTable.LcpFollowsTable | sstp-proto/src/lcp.rs:103-237 | from every state, LCP takes every payload as a table by code says: exact new state and frames sent, in octets; the verdict on each option type, the exact counter-proposals, the last suggestion of each kind taken over, rejected kinds gone, a Terminate-Ack without data, an echo |
| NegotiationTable.IpcpFollowsTable | sstp-proto/src/ipcp.rs:97-189 | the same for IPCP: addresses under types 3, 129 and 131, the last well-formed address of a request noted, acknowledged addresses reported |
| NegotiationTable.AdoptAllAdopts | sstp-proto/src/lcp.rs:224-233 | each option takes the last value a Nak suggests for its kind, and only the first of a kind does |
| NegotiationTable.FirstLcpRequest | sstp-proto/src/lcp.rs:62-101 | the first LCP request in octets: magic number, PFC, ACFC under identifier 1 |
| NegotiationTable.FirstIpcpRequest | sstp-proto/src/ipcp.rs:59-95 | the first IPCP request in octets: types 3, 129 and 131, unspecified, under identifier 1 |
| ReplyTable.EveryMessageIsAnswered | sstp-proto/src/engine.rs:140-345 | from every state, every message that can be read is answered as the table says: new state and reply, event by event, in octets |
| ReplyTable.ControlIsAnswered | sstp-proto/src/engine.rs:147-197 | by message type and in octets: a keep-alive draws 10 01 00 08 00 09 00 00, DISCONNECT its acknowledgement and the end, refusal and abort one failure each, types that are not the server's nothing; a CONNECT_ACK is accepted once, by the first crypto-binding request of 36 octets, and is a failure without one |
| ReplyTable.LcpIsAnswered | sstp-proto/src/engine.rs:221-252 | LCP's frames are sent and traced; when LCP opens in its phase the server must have asked for MS-CHAPv2, else the engine gives up |
| ReplyTable.ChapIsAnswered | sstp-proto/src/engine.rs:254-307 | by code: a well-formed 16-octet Challenge draws the standard's Response, a Success that proves the password the keys and an IPCP request, everything else the failure of its own reason |
| ReplyTable.IpcpIsAnswered | sstp-proto/src/engine.rs:309-339 | IPCP's frames are sent; when IPCP comes up in its phase, the standard's CONNECTED octets and Established follow, or a panic if hash, nonce or keys are missing |
| ReplyLaws.UnspokenIsQuoted | sstp-proto/src/engine.rs:208-217 | from every state, a frame of any protocol but IPv4, IPCP, LCP and CHAP draws one Protocol-Reject under the next identifier that reads back as the protocol number and all behind it, if it fits; only the identifier changes |
| ReplyLaws.LcpTerminateIsAcked | sstp-proto/src/lcp.rs:153-157 | from every state a Terminate-Request draws one Terminate-Ack without data under its identifier and takes both sides down |
| ReplyLaws.IpcpTerminateIsAcked | sstp-proto/src/ipcp.rs:139-143 | the same for IPCP |
| ReplyLaws.LoginEndsExactly | sstp-proto/src/engine.rs:254-307 | from every state, the reply to a CHAP payload ends in a failure if and only if the payload cannot be read, is a Challenge that is malformed or not of 16 octets, is a Success that proves nothing, or has another code, Failure included |
| Engine.Engine.constructor | sstp-proto/src/engine.rs:94-113 | a new engine is in the initial state, with the SHA-1 certificate hash padded to 32 bytes |
| Engine.Engine.Receive | sstp-proto/src/engine.rs:140-145 | new state and reply are `OnPacket` of the old state |
| Engine.Engine.ReceiveCtrl | sstp-proto/src/engine.rs:147-170 | replies to each control message, everything else unchanged |
| Engine.Engine.ReceiveConnectAck | sstp-proto/src/engine.rs:172-197 | accepts a CONNECT_ACK in the first phase only, stores hash choice and nonce, starts LCP |
| Engine.Engine.ReceivePppFrame | sstp-proto/src/engine.rs:199-219 | dispatch by protocol, Protocol-Reject for what is not understood |
| Engine.Engine.EmitSends | sstp-proto/src/engine.rs:230-235 | the loop over the frames to send yields one packet per frame, in order, traced if it decodes |
| Engine.Engine.ReceiveLcp | sstp-proto/src/engine.rs:221-252 | LCP frame handling with the checks of the peer's authentication requirement |
| Engine.Engine.ReceiveChap | sstp-proto/src/engine.rs:254-307 | CHAP dispatch, in every phase |
| Engine.Engine.ReceiveChallenge | sstp-proto/src/engine.rs:260-279 | stores challenge and pending response, sends the Response |
| Engine.Engine.ReceiveSuccess | sstp-proto/src/engine.rs:280-295 | takes the pending response, verifies, derives keys, starts IPCP |
| Engine.Engine.ReceiveIpcp | sstp-proto/src/engine.rs:309-339 | IPCP frame handling; CONNECTED and Established when both sides are up |
| Sizes.AnswersAreWhole | sstp-proto/src/engine.rs:140-345 | in every run every packet is answered only with byte strings that decode and whose length field counts all of them if and only if the answer fits: at most 65523 bytes of options refused, else countered, else acknowledged, of an echo, or of a protocol quoted, and for a Challenge 65473 bytes of user name; or if LCP comes up without authentication, with which the engine gives up and drops the answer |
| Sizes.EverySendIsWhole | sstp-proto/src/engine.rs:140-345 | in every run, with user names up to 65473 bytes, each packet of up to 52429 bytes is answered only with byte strings that decode and whose length field counts all of them |
| Sizes.BoundIsExact | sstp-proto/src/lcp.rs:209 | from every state a certain packet of 52430 bytes is answered with a truncated length field |
| Sizes.ResponseWhole | sstp-proto/src/chap_fsm.rs:131-136 | a Response is a whole packet if and only if the user name has at most 65473 bytes |
| Sizes.WrapIsWhole | sstp-proto/src/engine.rs:342-344 | a wrapped frame is a whole packet if and only if it fits 65527 bytes |
| Connection.Connection.constructor | sstp-proto/src/connection.rs:148-179 | a new connection has read nothing and has no tunnel |
| Connection.Connection.HttpRead | sstp-proto/src/connection.rs:149-170 | one read of the HTTP loop: more headers, an error, or the handover of the over-read bytes and CONNECT_REQ |
| Connection.Connection.Read | sstp-proto/src/connection.rs:194-259 | the read branch with its inner loop over packets equals handling the whole buffer packet by packet |
| Connection.Connection.Dispatch | sstp-proto/src/connection.rs:203-257 | one packet: the engine's step, then its events in order |
| Connection.Connection.ReactTo | sstp-proto/src/connection.rs:210-257 | the loop over events with its early returns: writes, deliveries, interface creation, endings |
| Connection.Connection.IdleTick | sstp-proto/src/connection.rs:261-267 | an echo and a higher counter, or the end of the connection at four unanswered ones |
| Connection.Connection.Forward | sstp-proto/src/connection.rs:269-272 | a packet from the interface is written framed |
| ConnectionTable.EveryInputIsTaken | sstp-proto/src/connection.rs:181-272 | in octets and from every live state: what a tick, a packet from the interface, the user's disconnect and an empty read do |
| ConnectionTable.ResponseIsTaken | sstp-proto/src/connection.rs:149-170 | bytes of the HTTP response: more are awaited, or the connection ends with the parser's error, or the rest is kept and 10 01 00 0E 00 01 00 01 00 01 00 06 00 01 written |
| ConnectionTable.MessagesAreTaken | sstp-proto/src/connection.rs:203-257 | whatever the buffer holds: an incomplete message waits, a malformed one ends the connection, a whole one is answered as the reply table says and its events obeyed |
| ConnectionTable.PacketEnds | sstp-proto/src/connection.rs:210-257 | in every state and for every packet, the last event decides whether the connection ends, and with which reason |
| ConnectionTable.RefusedLoginEnds | sstp-proto/src/connection.rs:251-252 | a read that completes a CHAP Failure ends the connection with that reason, from every state and whatever else was received |
| ConnectionLaws.EverySendIsWritten | sstp-proto/src/connection.rs:210-257 | for every packet in every state, unless the engine panics, exactly what it wants sent is written, in order, even if the connection ends on that packet |
| ConnectionRuns.NoTrafficBeforeConnected | sstp-proto/src/connection.rs:172-273 | in every run all IP traffic, in either direction, comes after the tunnel was reported up, which is right after a CONNECTED was written |
| ConnectionRuns.EchoesAreCounted | sstp-proto/src/connection.rs:179-267 | in every live run the counter is the number of ECHO_REQUESTs written since the last read, and at most four |
| ConnectionRuns.FifthSilentTickEnds | sstp-proto/src/connection.rs:261-267 | while nothing arrives, the connection has ended if and only if more than four echoes' worth of ticks have passed since the last read |
| ConnectionStreams.CutsDoNotMatter | sstp-proto/src/connection.rs:194-259 | any way of cutting bytes into reads has the outputs and final state of one read of all of them |
| ConnectionStreams.OnlyTheStreamMatters | sstp-proto/src/connection.rs:148-259 | from the first byte of the HTTP response on, whenever a read follows the headers, the run is the greeting followed by one pass over the bytes behind the headers |
| ConnectionStreams.TunnelEndToEnd | sstp-proto/src/connection.rs:203-272 | packets read from one connection's interface, carried in any chunks to another, leave that one's interface unchanged and in order if its tunnel is up, and nothing else changes |
| Tunnel.TunnelIsTransparent | sstp-proto/src/packet.rs:188-308 | IP packets of up to 65527 bytes, framed, concatenated and cut into reads in any way, come out of reader and engine in order from every engine state, with no byte left |
| Tunnel.OnePacketSurvives | sstp-proto/src/packet.rs:188-196 | a framed packet decodes to itself if and only if it has at most 65527 bytes |
| Streams.ChunkingIndependence | sstp-proto/src/connection.rs:148-208 | reading in chunks, up to an empty read with which the server closes, and parsing the whole stream agree on header offset, packets, first hard error and leftover bytes if and only if no handed-over packet is stranded |
| Streams.FeedIsDrain | sstp-proto/src/packet.rs:283-308 | pushing the chunks up to an empty read and draining after each yields the packets, rest and error of draining the whole stream |
| Streams.ReadHttpIsParse | sstp-proto/src/connection.rs:149-165 | the HTTP loop stops where parsing the whole stream would, and hands over every byte behind the headers; an empty read before that closes it |
| Streams.PipelinedPacketIsStranded | sstp-proto/src/connection.rs:164-194 | a whole packet pipelined behind any good response, headers included, is stranded if and only if no further bytes are read |
| HttpLaws.EveryResponse | sstp-proto/src/http.rs:47-63 | for every buffer with complete headers, well-formed or not: the first line without a second word is refused, else the first two words decide between a bad status line, another status and success right behind the blank line |
| HttpLaws.NoEndYet | sstp-proto/src/http.rs:47-48 | more is awaited if and only if there is no blank line |
| HttpLaws.ResponseOutcome | sstp-proto/src/http.rs:47-63 | for every response given by version, code, reason, further header lines and body, the outcome depends on version and code alone: bad status line, other status, or success right behind the blank line |
| HttpLaws.ParseU16Exact | sstp-proto/src/http.rs:53-57 | a status code parses if and only if it is an optional plus and at least one digit of value below 65536, and to that value |
| Http.FindDoubleCrlfIsFirst | sstp-proto/src/http.rs:65-67 | the position found is the first blank line, and the only such answer |
| Http.ParseResponseStable | sstp-proto/src/http.rs:47-63 | once the headers are complete, later bytes do not change the result |
| Bytes.CastsAreRemainders | sstp-proto/src/packet.rs:189-217 | the casts to 16 and 8 bits keep the remainder |
| Packet.CtrlRoundTrip | sstp-proto/src/packet.rs:200-267 | a control packet followed by any bytes decodes to itself if and only if its codes are canonical and it fits 65535 bytes |
| Packet.DataRoundTrip | sstp-proto/src/packet.rs:188-239 | a data packet followed by any bytes decodes to its frame if and only if the frame has at most 65531 bytes |
| Packet.BuildCtrl | sstp-proto/src/packet.rs:200-218 | building with a zeroed header and a length patched in at the end gives the specified bytes |
| Packet.AppendAttrs | sstp-proto/src/packet.rs:207-213 | the attribute loop appends header and data of each attribute in order |
| Packet.BuildData | sstp-proto/src/packet.rs:188-196 | the bytes of a data packet |
| Packet.DecodePacket | sstp-proto/src/packet.rs:223-267 | the decoder with its running position computes `Decode`, all error cases included |
| Packet.DecodeAttrs | sstp-proto/src/packet.rs:248-264 | the attribute loop with its running position parses exactly the attributes of the body, or the first error |
| Packet.PacketLength | sstp-proto/src/packet.rs:301-302 | every packet taken off the buffer consumes at least four bytes and no more than there are |
| Packet.PacketReader.Push | sstp-proto/src/packet.rs:283-285 | bytes are appended |
| Packet.PacketReader.NextPacket | sstp-proto/src/packet.rs:294-308 | one whole packet is taken off the front, or the buffer is left as it is |
| Ppp.FrameRoundTrip | sstp-proto/src/ppp.rs:29-93 | a frame decodes to protocol and payload if and only if the protocol is canonical, with the Address/Control prefix, and without it unless the protocol number looks like the prefix |
| Ppp.BuildFrame | sstp-proto/src/ppp.rs:71-78 | prefix, protocol number, payload |
| Cp.RawRoundTrip | sstp-proto/src/cp.rs:74-100 | a frame followed by any bytes reads back if and only if it fits its 16-bit length field |
| Cp.BuildFrame | sstp-proto/src/cp.rs:74-82 | the bytes pushed are header and data |
| Cp.OptionsRoundTrip | sstp-proto/src/cp.rs:115-144 | encoded options followed by any bytes decode to themselves and then the rest if and only if each has at most 253 bytes of data |
| Cp.DecodedOptionsArePrefix | sstp-proto/src/cp.rs:131-144 | re-encoding what was decoded gives a prefix of the buffer, and nothing decodes from what follows |
| Cp.BuildOptions | sstp-proto/src/cp.rs:115-127 | the encoding loop |
| Cp.ReadOptions | sstp-proto/src/cp.rs:131-144 | the decoding loop with its running position, stopping at the first undecodable option |
| OwnOptions.Retain | sstp-proto/src/lcp.rs:235-237 | the pass over the options, each looked up among the rejected ones, keeps in order exactly those of no rejected kind |
| OwnOptions.ReceiveKeepsSound | sstp-proto/src/lcp.rs:125-143 | no frame ever brings a new option kind, a duplicate or an inexpressible option into the request |
| OwnOptions.RequestCarriesDesired | sstp-proto/src/lcp.rs:94-101 | the request sent decodes to the identifier awaited and exactly the desired options |
| Lcp.Lcp.constructor | sstp-proto/src/lcp.rs:62-79 | magic number, PFC and ACFC are offered |
| Lcp.Lcp.StartNegotiation | sstp-proto/src/lcp.rs:90-92 | sends the first request |
| Lcp.Lcp.SendConfigRequest | sstp-proto/src/lcp.rs:94-101 | next identifier, remembered, with the desired options on the wire |
| Lcp.Lcp.ReceiveFrame | sstp-proto/src/lcp.rs:103-163 | new state, frames to send and up flag for every frame |
| Lcp.Lcp.ReplyToRequest | sstp-proto/src/lcp.rs:111-124 | Reject before Nak before Ack |
| Lcp.Lcp.EvaluatePeerOptions | sstp-proto/src/lcp.rs:176-222 | the loop judges every option in order and records MS-CHAPv2 |
| Lcp.Lcp.ApplyNak | sstp-proto/src/lcp.rs:224-233 | suggestions are taken over one after another, the magic number with them |
| Lcp.Lcp.ApplyReject | sstp-proto/src/lcp.rs:235-237 | exactly the options of no rejected kind stay, in order, and what was sound stays sound |
| Lcp.Lcp.BuildProtocolReject | sstp-proto/src/lcp.rs:171-174 | quotes what it is given under the next identifier, which is not awaited |
| LcpLaws.PeerRequestVerdict | sstp-proto/src/lcp.rs:111-222 | every well-formed request gets one reply under its identifier: Reject of exactly the unacceptable options unmodified and in order if any; else Nak countering exactly the options to change; else Ack of identical bytes; our record of the peer's side is up exactly after an Ack |
| LcpLaws.ReceiveKeepsInv | sstp-proto/src/lcp.rs:103-237 | in every reachable state an offered 4-byte magic number is the one in use, whatever Naks contain |
| LcpLaws.EchoCarriesOfferedMagic | sstp-proto/src/lcp.rs:144-152 | an Echo-Reply starts with the magic number offered and keeps the peer's bytes behind its own four |
| LcpLaws.RecordedAuthIsMsChapV2 | sstp-proto/src/lcp.rs:199-207 | an authentication requirement is recorded exactly when a request proposes MS-CHAPv2, and it is always MS-CHAPv2 |
| LcpLaws.ReceiveSendLengths | sstp-proto/src/lcp.rs:111-152 | how long the answer to a request or an echo is, exactly, from its options and our magic number; at most a quarter longer than the data; and how long a request of ours can be |
| Ipcp.Ipcp.constructor | sstp-proto/src/ipcp.rs:59-76 | address and both name servers are asked for, unspecified |
| Ipcp.Ipcp.StartNegotiation | sstp-proto/src/ipcp.rs:86-88 | sends the next request and leaves the up flags alone |
| Ipcp.Ipcp.SendConfigRequest | sstp-proto/src/ipcp.rs:90-95 | next identifier, remembered, with the desired options on the wire |
| Ipcp.Ipcp.ReceiveFrame | sstp-proto/src/ipcp.rs:97-148 | new state, frames to send and up flag for every frame |
| Ipcp.Ipcp.ReplyToRequest | sstp-proto/src/ipcp.rs:105-118 | Reject before Ack |
| Ipcp.Ipcp.EvaluatePeerOptions | sstp-proto/src/ipcp.rs:150-165 | rejects all but well-formed addresses and notes the last of those |
| Ipcp.Ipcp.ApplyNak | sstp-proto/src/ipcp.rs:167-173 | suggestions are taken over one after another |
| Ipcp.Ipcp.ApplyReject | sstp-proto/src/ipcp.rs:175-177 | exactly the options of no rejected kind stay, in order, and what was sound stays sound |
| Ipcp.Ipcp.CaptureAcceptedValues | sstp-proto/src/ipcp.rs:179-189 | acknowledged addresses are copied into the report |
| IpcpLaws.PeerRequestVerdict | sstp-proto/src/ipcp.rs:105-165 | every well-formed request gets one reply: Reject of exactly the unacceptable options in order, else Ack of identical bytes |
| IpcpLaws.ReceiveKeepsInv | sstp-proto/src/ipcp.rs:97-189 | in every reachable state, while our side is up each requested address equals the reported one |
| IpcpLaws.ReportStaysExact | sstp-proto/src/ipcp.rs:119-138 | until an acknowledged request is revised, the report is empty or exactly what the last request asked for |
| IpcpLaws.AckIsExact | sstp-proto/src/ipcp.rs:119-189 | after any acknowledgement, whatever it repeats, the report is exactly the request if and only if nothing was reported before under a kind the request asks no address for |
| IpcpLaws.StaleAfterRevision | sstp-proto/src/ipcp.rs:119-189 | after a revision that asks no longer for an acknowledged address, every acknowledgement brings our side up with the old address reported |
| IpcpLaws.StaleReportHappens | sstp-proto/src/ipcp.rs:86-189 | for every address: suggested, acknowledged, rejected, and the rest acknowledged is a run in which this happens |
| Negotiation.RequestsAreBounded | sstp-proto/src/lcp.rs:125-143 | in every run of either automaton, with any number of starts: one request per start and per effective Nak or Reject; with Rejects naming offered options, at most as many Rejects as options and at most starts plus Naks plus three requests |
| Negotiation.AcknowledgedInTime | sstp-proto/src/ipcp.rs:119-138 | a server that Naks at most N times and rejects only what is offered has acknowledged by its answer N + 4, whatever other frames, stale answers and starts come in between |
| Negotiation.RejectedKindNeverReturns | sstp-proto/src/lcp.rs:235-237 | a rejected kind is never offered again in any later run |
| Negotiation.ReactRefinesAnswer | sstp-proto/src/lcp.rs:125-163 | both automata treat their own options by one rule and send a request exactly on an effective Nak or Reject |
| Negotiation.LockstepForever | sstp-proto/src/lcp.rs:94-163 | over a FIFO with a server that answers each request once, at every moment exactly one of request in flight, answer in flight, our side up, if and only if the automaton is not started again and no Terminate-Request takes an acknowledged side down |
| Negotiation.LockstepWhenStartedIdle | sstp-proto/src/ipcp.rs:86-148 | in every run, starts and Terminate-Requests included, never more than one of them if and only if every start finds none |
| Negotiation.StartAddsOne | sstp-proto/src/ipcp.rs:86-95 | starting either automaton puts one more request in flight, whose answer is then the only one awaited |
| Negotiation.EveryRunIsSerial | sstp-proto/src/lcp.rs:90-174 | in every run from the first start on, numbering the requests and Protocol-Rejects on the wire gives, modulo 256, the identifiers used and the one awaited |
| Negotiation.StaleAnswer | sstp-proto/src/lcp.rs:125-174 | in every run, an answer to any request sent so far is taken for one to the current request if and only if a multiple of 256 identifiers was used since, Protocol-Rejects included; answers to closer earlier ones change nothing |
| Chap.FillKey | sstp-proto/src/chap.rs:66-72 | the loop fills all eight key bytes as specified |
| Chap.KeyBitsAreInputBits | sstp-proto/src/chap.rs:48-72 | bit j of the upper seven of key byte m is input bit 7m + j, and every key byte has odd parity |
| Chap.PackInvertsExpansion | sstp-proto/src/chap.rs:66-72 | packing the expanded key gives back the seven input bytes |
| Chap.ExpansionInvertsPack | sstp-proto/src/chap.rs:66-72 | expanding a packed key gives back every odd-parity key |
| Chap.FillResponse | sstp-proto/src/chap.rs:86-97 | three blocks at their offsets, no index out of range |
| Chap.KeysCoverHash | sstp-proto/src/chap.rs:86-97 | the three keys come from exactly the sixteen hash bytes and five zero bytes |
| Chap.DomainPrefixIgnored | sstp-proto/src/chap.rs:31-40 | a domain in front of a backslash does not change the response |
| ChapFsm.ComposeResponse | sstp-proto/src/chap_fsm.rs:115-137 | appending value and data piece by piece gives the specified Response and what is kept of it |
| ChapFsm.ResponseReadsBack | sstp-proto/src/chap_fsm.rs:115-137 | the server reads back identifier, peer challenge, reserved zeros, response and name from a Response |
| ChapFsm.GenuineSuccessVerifies | sstp-proto/src/chap_fsm.rs:143-150 | the genuine authenticator response is accepted, alone or followed by white space and anything |
| ChapFsm.VerifiedMeansExpected | sstp-proto/src/chap_fsm.rs:143-150 | a message is accepted if and only if, after leading white space, it has the 42 expected characters up to case as a whole word |
| ChapFsm.FrameRoundTrip | sstp-proto/src/chap_fsm.rs:52-72 | frames with known codes read back |
| Primitives.PasswordEncodingsAgree | sstp-proto/src/mppe.rs:32-42 | doubling the UTF-8 bytes gives the UTF-16LE encoding if and only if the password is ASCII |
| Mppe.ComputePasswordHashHash | sstp-proto/src/mppe.rs:32-42 | the doubling loop and two MD4 passes |
| Rfc.ExpansionIsStandard | sstp-proto/src/chap.rs:48-72 | the shifting key expansion builds the key of RFC 2759 section 8.6, defined bit by bit: seven key bits and an odd-parity bit per octet |
| Rfc.UserPartIsUserName | sstp-proto/src/chap.rs:27-32 | what is hashed of the user name is the name without the domain in front of it |
| Rfc.NtResponseIsStandard | sstp-proto/src/chap.rs:86-106 | the response, computed over a 24-byte buffer with lookahead, is that of RFC 2759 sections 8.1 to 8.6 |
| Rfc.AuthenticatorResponseIsStandard | sstp-proto/src/chap.rs:126-157 | the expected authenticator response is that of RFC 2759 section 8.7, as upper-case hexadecimal text |
| RfcText.AsciiIsCodes | sstp-proto/src/chap.rs:108-117 | the constant octets hashed are the ASCII codes of their texts |
| Conformance.LongOctetsAgree | sstp-proto/src/lcp.rs:73 | a magic number is written most significant octet first |
| RfcText.Utf16IsStandard | sstp-proto/src/chap.rs:19-26 | each character of the password is the UTF-16 units of RFC 2781, least significant octet first, surrogates included |
| RfcText.Utf8IsStandard | sstp-proto/src/mppe.rs:32-42 | each character of the password has the octets of RFC 3629 |
| RfcText.SpaceIsWhite | sstp-proto/src/chap_fsm.rs:145-146 | what is skipped as white space is exactly one character with Unicode's White_Space property |
| RfcText.FirstWordBehindSpace | sstp-proto/src/chap_fsm.rs:145-147 | a text passes if and only if it is the expected word, whole and in letters of either case, behind any number of white-space characters |
| Rfc.KeysOfAnyPassword | sstp-proto/src/mppe.rs:32-101 | for every password the keys are the standard's derivation from its UTF-8 octets, each followed by a zero |
| Rfc.KeysAreStandardExactlyForAscii | sstp-proto/src/mppe.rs:32-101 | the keys are the standard's for all hash functions if and only if the password is ASCII |
| CmacLaws.ConnectedIsStandard | sstp-proto/src/cmac.rs:79-139 | octet for octet the message is that of [MS-SSTP] section 2.2.11, with the MAC of the server's keys: 1 announces SHA-1, 2 SHA-256 |
| Rfc.KeysAreStandard | sstp-proto/src/mppe.rs:32-101 | for ASCII passwords the derived keys are those of RFC 3079 section 3, for client and server |
| Rfc.MacIsStandard | sstp-proto/src/cmac.rs:44-96 | the compound MAC is the one a server computes from its own, mirrored keys |
| Cmac.BuildConnected | sstp-proto/src/cmac.rs:126-139 | filling, encoding and patching in place gives the specified message |
| Cmac.FillBindData | sstp-proto/src/cmac.rs:127-130 | the slices written into the attribute buffer |
| Cmac.MakeHlak | sstp-proto/src/cmac.rs:44-49 | send key then receive key |
| CmacLaws.ConnectedLayout | sstp-proto/src/cmac.rs:79-139 | octets 0 to 15 are 10 01 00 70 00 04 00 01 00 03 00 68 00 00 00 and 1 for SHA-1 or 2 for SHA-256; nonce, certificate hash and MAC follow at their offsets; the message decodes to one 100-byte attribute, differs from the zero-MAC packet in the MAC bytes only, and re-zeroing and recomputing gives the same MAC |

## Left out

- the user interface, worker process, routes, IPC, elevation, keychain, logs and icons of the application (`src/`): almost all of it is the outcome of external commands.
- `utun.rs` and `tls.rs`: kernel calls and library configuration; whether the interface can be created is an input, and a second Established replaces the first interface without a trace of the old one.
- the inside of MD4, SHA-1, SHA-256, DES and HMAC: arbitrary functions of the right sizes, so nothing is claimed about strength.
- `build_request`, the TCP and TLS setup and the HTTP request: the model starts when the response is awaited.
- trace texts, error messages and `describe_status`: events carry the reason, not the wording.
- read and write errors of the socket, the three-second wait after DISCONNECT and the 60-second timer: a tick is an input, its timing is not modelled.
- the priority of the branches of `select!`: the model allows any order, which covers the code's.
- the `Nak` branch of IPCP's answers: the list it depends on is always empty (`sstp-proto/src/ipcp.rs:150-151`).
- `from_utf8_lossy`: status line, challenge name and Success text are kept as bytes; a replacement character never equals an expected one.
- Connection.Connection.constructor: creates the engine together with the connection, where the code creates it after the HTTP response; nothing touches it before.
- other honest servers: the one modelled answers an IPCP request with one Nak of all corrections, does not Nak our LCP options and ends its part with the handshake; what other servers can cause is covered by the theorems over every run.
- unforgeability of the CONNECTED message: the server's check is modelled byte for byte, but what an attacker can compute is a property of HMAC and not claimed.
- `drain` and `find` are written as functions on sequences inside the methods that call them.

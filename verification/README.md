# A verified model of the multiplexer

The repository is a multiplexer that shares one server connection among many clients. It replaces the invoke
id of every client request by a generated one, and routes the server's reply back by looking that id up. This
project models its three layers in Dafny and proves what each of them, and their composition, is for.

| files | what they model |
|---|---|
| `Bits`, `Bytes`, `BitStream` | bit strings and numbers; octets; the bit stream whose appends or into an array at any alignment |
| `Per`, `Integers` | constrained, semi-constrained and unconstrained whole numbers (sections 11.5, 11.7 and 11.8 of ITU-T X.691), as values and as code |
| `Messages`, `Pdu` | the two message types, their generated codec, and the macros that turn them into PDUs |
| `Words`, `Acn`, `Decimals`, `Ber`, `Reals` | the other encodings: ACN integers and decimals, BER (sections 8.1.3, 8.3 and 8.6 of ITU-T X.690), binary REAL (section 8.5) |
| `Framing`, `Connection` | length-prefixed frames as a function on streams, and the in-place buffers that compute it |
| `Queue`, `Walks` | the intrusive linked queue on the heap, and what the loops of the threads do with it |
| `Relay`, `System`, `SystemProofs` | the relay as a state machine over its critical sections, and its invariant |
| `Transparency`, `Ownership`, `Cleanups` | what clients and server observe in every run; what belongs to a connection rather than to its socket number; what a cleanup costs |
| `Protocol`, `ServerSide`, `Dispatcher` | the loops of the threads over the heap queues and the buffers, each critical section proved to be a step of the state machine |
| `Passes`, `Parts` | what the loops over the connection list amount to, as functions on lists; parts of lists by position |
| `Effects`, `Wire`, `Layouts` | what the steps do and what the encodings look like, said of octets, positions and decoded messages without the functions that compute them |

The layers are joined by equality, not by assumption: array and pointer code is proved equal to functions on bit
strings, streams or lists, those functions are what the steps of the state machine use, and the theorems about every
run speak of decoded messages.

The main results:

* Every run, any interleaving of the threads' critical sections, any behaviour of the network: requests are conserved
  and reach the server in order (`Transparency.RequestsConserved`, `Transparency.ServerSeesRequests`); what a client
  reads corresponds in order to distinct answers for its socket number, with the client's own ids
  (`Transparency.EndToEnd`, `Transparency.AtMostOnce`). They rest on one invariant (`MuxerInvariant.InvAlways`). A
  section nested in another belongs to it; `cleanup`, whose outer lock is only that of the server connection, is a step
  for every lock that it takes, and the other threads run between them.
* The loops that free entries of the lists they walk, on the heap: `Protocol.Muxer.RouteReply`,
  `Dispatcher.ReadInSocket`, `Dispatcher.FreeMessagesOfClosedSockets`, `Dispatcher.RemoveAllConnections`,
  `Dispatcher.Cleanup`.
* The way back is conserved as well: every reply that the server framed waits, is in progress, was routed or was thrown
  away by a cleanup, exactly one of these and in order (`Transparency.RepliesConserved`,
  `Transparency.RepliesInOrder`).
* The functions that code and steps are proved against are themselves pinned by statements that do not use them:
  `Effects` for the steps (`Effects.ReplyRouted`, `Effects.RequestProcessed`, `Effects.ServerReadsNext`),
  `Framing.FirstPdu`, `Framing.ParseExactly` and `Framing.FrameOctets` for frames, `Passes.PassExactly`,
  `Passes.LeftBehindExactly` and `Passes.AddressedExactly` for the passes over the lists, `Wire` and `Layouts` for the
  encodings.
* Framing does not depend on how the stream is cut (`Framing.ChunkIndependence`), and the in-place buffer code computes
  it (`Connections.Connection.ReadPdus`).
* The codec: `Pdus.InputPduRoundTrip`, `Pdus.OutputPduRoundTrip`, `Per.UnconstrainedRoundTrip`,
  `Acn.TwosComplementRoundTrip`, `Decimals.ConstSizeRoundTrip`, `Ber.IntegerRoundTrip`.

Seven promises turned out not to hold on all inputs; the model keeps the code, a lemma gives an input that fails, and the
exact condition is proved:

* A reply reaches at most one client exactly when no two outstanding requests were issued a multiple of 32767 requests
  apart (`Transparency.OneClientByAge`, `Transparency.DistinctIdsExactly`). The one step that breaks it is mapping a
  request while one issued a multiple of 32767 earlier is outstanding (`Transparency.DistinctIdsStep`,
  `Transparency.DistinctIdsThroughout`). `Transparency.IdsCanCollide` is a run in which it fails.
* Every mapping's socket is a live connection exactly as long as no request is mapped after its connection was closed:
  closing leaves queued requests behind (`Ownership.MappingsLiveStep`, `Ownership.MappingsLiveThroughout`;
  `Ownership.AMappingOutlivesItsClient` is a run in which it fails).
* All that a connection may expect to read answers its own requests exactly if nothing waited for its socket number when
  it was accepted and as long as no reply is routed to a request that an earlier connection on that number made
  (`Ownership.OwnGivenThroughout`, with `Ownership.NothingOwnYet` and `Ownership.OwnAnswersStep`). Nothing of the number
  being left at all is enough (`Ownership.CleanConnectionReadsOwnAnswers`). `Ownership.AReplyReachesAStranger` and
  `Ownership.AStrangerReadsWhatWaited` are runs in which one of the two fails.
* A client reads all that was delivered for it, in order and without a gap, exactly if no cleanup drained the reply
  queue while a message waited for it (`Cleanups.WholeExactly`, `Cleanups.WholeStep`). `Cleanups.ACleanupLosesAReply`
  is a run in which it reads the second of two replies only. Requests and replies of the server
  are lost in the same way (`Cleanups.DiscardedStep`, `Cleanups.ThrownStep`).
* A leftover stops a connection for good exactly when its header is zero or larger than the buffer
  (`Framing.StuckExactly`), as after a frame without payload (`Framing.AnEmptyFrameStops`).
* The constrained decoder only returns values in range exactly when their number is a power of two
  (`Per.ConstrainedDecodeInRange`); of three values it returns a fourth (`Per.AFourthOfThreeValues`).
* REAL decoding reads an uninitialised exponent. Numbers with biased exponent 1075 to 1202 depend on it; larger
  ones do not, because the garbage falls outside the twelve bits that are kept (`Reals.RestoredExactly`;
  `Reals.ANumberIsLost` names one). The comment at messages/asn1crt.c:653 says that header bits 11 announce an exponent
  length; the code takes four exponent octets.

Arithmetic is on mathematical integers with the source's widths written out: `Wrap64`, `Unsigned64` and `Wrap32` are
the conversions to 64- and 32-bit words, and `-v - 1` on the smallest value is the mathematical one. Shifts and masks
on words are divisions, remainders and powers of two; or-ing into bits that are known to be zero is addition. On
octets (`bv8`) they are the machine operations.

## Model

| member | source | states |
|---|---|---|
| `Transparency.EndToEnd` | muxer/protocol.c:138-221 | in every state of every run, the PDUs that a client can read from the octets sent to it correspond in order to answers at increasing positions, each the server's reply to a request that came from its own socket number, with that request's original id and nothing else changed |
| `Transparency.ReadsWithinDeliveries` | muxer/dispatcher.c:677-725 | all that a client reads, leftovers for its socket number included, is an order-preserving part of what was delivered to its socket |
| `Transparency.DistinctIdsExactly` | muxer/protocol.c:115-136 | in every reachable state the outstanding ids are distinct if and only if no two outstanding requests were issued a multiple of 32767 requests apart |
| `Transparency.DistinctIdsStep` | muxer/protocol.c:115-136 | distinctness is lost at exactly one kind of step: mapping a request while one issued a multiple of 32767 requests earlier is still outstanding |
| `Transparency.DistinctIdsThroughout` | muxer/protocol.c:115-136 | over every run: the outstanding ids stay distinct exactly as long as no such request is mapped |
| `Transparency.OneClientByAge` | muxer/protocol.c:177-213 | in every reachable state: no reply can reach more than one client if and only if no two outstanding requests are a multiple of 32767 apart |
| `Transparency.IdsCanCollide` | muxer/protocol.c:115-120 | a concrete run that issues 32768 unanswered requests, after which two outstanding ids are equal and a reply with that id would go out twice |
| `Transparency.WindowDistinct` | muxer/protocol.c:115-136 | outstanding mappings issued within the last 32767 generations have distinct ids in every reachable state |
| `Ownership.MappingsLiveStep` | muxer/connection.c:40-73 | a step leaves a mapping whose socket is not a live connection if and only if it maps a request whose connection is no longer listed |
| `Ownership.MappingsLiveThroughout` | muxer/connection.c:40-73 | over every run: every mapping's socket stays a live connection exactly as long as no request is mapped after its connection was closed |
| `Ownership.AMappingOutlivesItsClient` | muxer/connection.c:52-65 | a concrete run that maps a request after its connection was closed, so the property can fail |
| `Ownership.OwnAnswersStep` | muxer/protocol.c:174-216 | what is delivered to a connection stays an answer to its own requests at every step of its life but exactly one kind: routing a reply to a request that an earlier connection on its socket number made |
| `Ownership.OwnAnswersThroughout` | muxer/protocol.c:174-216 | over the whole life of any connection: what is delivered after it was accepted answers its own requests exactly as long as no reply to a request of an earlier connection on its socket number is routed |
| `Ownership.OwnGivenThroughout` | muxer/dispatcher.c:326-359 | over the whole life of any connection: all that it may expect to read answers its own requests exactly if nothing waited for its socket number when it was accepted and as long as no such reply is routed |
| `Ownership.NothingOwnYet` | muxer/dispatcher.c:347-351 | when a connection is accepted, no answer delivered before is for a request of its own, so all it inherits is foreign |
| `Ownership.OwnStep` | muxer/protocol.c:43-216 | a connection with nothing of a predecessor pending stays that way at every step while it is open |
| `Ownership.OwnThroughout` | muxer/dispatcher.c:326-359 | a connection accepted when nothing of its socket number is queued, in progress, mapped or waiting is delivered nothing foreign, however the run goes on |
| `Ownership.ReadsOwnAnswers` | muxer/dispatcher.c:677-725 | under that condition the PDUs a connection reads correspond in order to answers at increasing positions, each the reply to a request that this connection received |
| `Ownership.CleanConnectionReadsOwnAnswers` | muxer/dispatcher.c:326-359 | the same from any reachable state in which the connection is accepted with its socket number free of leftovers, for every continuation |
| `Ownership.AReplyReachesAStranger` | muxer/connection.c:52-65 | a concrete run in which a connection that has sent nothing reads the reply to its predecessor's request |
| `Ownership.AStrangerReadsWhatWaited` | muxer/connection.c:52-65 | a concrete run in which such a connection reads what still waited for its predecessor, although no foreign reply is routed after it was accepted |
| `Cleanups.WholeStep` | muxer/dispatcher.c:233-247 | a connection loses something it may expect to read at exactly one kind of step, the draining of the reply queue while a message waits for it, and does not get it back |
| `Cleanups.WholeExactly` | muxer/dispatcher.c:233-247 | over the life of any connection: all it may expect to read was loaded or waits, in order, if and only if the reply queue was never drained while a message waited for it |
| `Cleanups.ACleanupLosesAReply` | muxer/message.c:68-83 | a concrete run in which two replies are delivered for a live client and it reads the second one only |
| `Cleanups.DiscardedStep` | muxer/message.c:68-83 | requests are lost at exactly one step, the draining of their queue, and exactly those that wait, by the numbers of their arrival |
| `Cleanups.ThrownStep` | muxer/message.c:68-83 | replies of the server are lost at exactly one step, the draining of their queue, and exactly those that wait |
| `Cleanups.BasesStep` | muxer/dispatcher.c:233-247 | the point from which the server's streams are counted moves at exactly one step, the reset by a cleanup, or for the requests also when their queue is drained |
| `Transparency.ReplyReachesItsClient` | muxer/protocol.c:167-218 | if the outstanding ids are distinct, a reply with the id of an outstanding request is queued once, for that request's socket, decodes there to the original id with command and result unchanged, and consumes exactly that mapping |
| `Transparency.AReplyArrives` | muxer/protocol.c:138-171 | a concrete run at whose end the conditions of `ReplyReachesItsClient` hold |
| `Transparency.IdsRepeat` | muxer/protocol.c:115-120 | two requests get the same id exactly when a multiple of 32767 lies between them |
| `Transparency.IdWindow` | muxer/protocol.c:115-120 | any 32767 consecutive ids are pairwise distinct, across the wrap-around of the counter |
| `Transparency.IdsInTurn` | muxer/protocol.c:115-120 | the ids are 1 to 32767 in turn, beginning with 1, and the counter goes from each to the next |
| `Transparency.UnknownReplyIsDropped` | muxer/protocol.c:177-216 | a reply whose id no outstanding request has reaches nobody and leaves the mappings alone |
| `Transparency.AtMostOnce` | muxer/protocol.c:203-213 | no request is answered twice, and none that is outstanding has been answered |
| `Transparency.Exchange` | muxer/protocol.c:63-101 | one exchange through the codec: the server sees the client's command under a generated id, and its answer to that id decodes at the client to the client's own id |
| `Transparency.RequestsConserved` | muxer/protocol.c:43-101 | conservation over every run: each request that ever arrived waits, was given an id (the last one perhaps not yet), or was thrown away by a cleanup, exactly one of these, and ids are given in the order of arrival; each issued request is forwarded exactly once under its id; forwarded ones are loaded or waiting |
| `Transparency.RepliesConserved` | muxer/dispatcher.c:401-427 | conservation over every run: each reply that ever arrived waits, was taken to be routed (the last one perhaps in progress), or was thrown away by a cleanup, exactly one of these; replies are taken in the order of arrival, and what was delivered answers taken replies in that order |
| `Transparency.RepliesInOrder` | muxer/dispatcher.c:401-427 | what the server framed since its buffers were last reset is, in every reachable state, exactly the replies that arrived since then, in order |
| `Transparency.RequestsInOrder` | muxer/protocol.c:43-57 | what a client framed is what arrived from its socket since it was accepted, in order, and requests are issued in the order they arrived |
| `Transparency.ServerSeesRequests` | muxer/dispatcher.c:586-616 | what the server reads from the octets sent so far is an initial part of the issued requests in order, each with its own id and its command unchanged |
| `Transparency.ClientSeesDeliveries` | muxer/dispatcher.c:677-725 | what a client reads is always an order-preserving part of what waited for it when it was accepted and was delivered since, and an initial part of it if no cleanup threw away a message that waited for it |
| `Transparency.WaitingIsLoadable` | common/pdu.c:57-63 | in every reachable state all that waits for a client or the server meets the bounds that loading asserts |
| `Transparency.AnsweredDecodes` | muxer/protocol.c:184-191 | the re-encoded reply goes to the mapping's socket and decodes to the original signed id with command and result unchanged |
| `MuxerInvariant.InvAlways` | muxer/dispatcher.c:548-960 | the invariant (ids, sources and forwarding of requests, arrival and routing of replies, answers, links, flow, origin) holds after any interleaving of the threads' critical sections, those of a cleanup included, and any behaviour of the network |
| `MuxerInvariant.InvStep` | muxer/dispatcher.c:548-960 | every step keeps the invariant |
| `MuxerInvariant.IdsStep` | muxer/protocol.c:122-136 | every step keeps: the counter is the last issued id, and every mapping belongs to exactly one issued request, oldest first |
| `MuxerInvariant.SourcesStep` | muxer/protocol.c:43-81 | every step keeps: every request that left its queue was issued, is being issued or was thrown away by a cleanup, in the order of arrival |
| `MuxerInvariant.ForwardsStep` | muxer/protocol.c:80-101 | every step keeps: every issued request is forwarded once, in order and under its id |
| `MuxerInvariant.AnswersStep` | muxer/protocol.c:174-216 | every step keeps: each delivery answers one issued request with a reply that carried its id, no request twice |
| `MuxerInvariant.RepliesStep` | muxer/protocol.c:146-166 | every step keeps: every reply that left its queue was taken to be routed or was thrown away by a cleanup, in the order of arrival |
| `MuxerInvariant.TurnsStep` | muxer/protocol.c:168-221 | every step keeps: what was delivered answers the replies in the order in which they were taken |
| `MuxerInvariant.LinksStep` | muxer/dispatcher.c:372-399 | every step keeps both ends of every connection consistent with the octets that went through it, and all that waits for a client loadable |
| `MuxerInvariant.FlowStep` | muxer/dispatcher.c:677-725 | every step keeps, for every live client: what was loaded and what waits is an order-preserving part of what it may expect, and what it sent is what arrived; for the server, since its buffers were reset: what was loaded and what waits is what was forwarded, and what it sent is what arrived |
| `MuxerInvariant.ForWithout` | muxer/dispatcher.c:694-712 | taking a message out of the middle of the shared queue leaves the other sockets' messages alone and takes the first of its own |
| `Relay.Forwarded` | muxer/protocol.c:80-101 | every re-encoded request has 4 to 266 octets, whatever was received |
| `Relay.KeepTwice` | muxer/connection.c:75-98 | removing the mappings of several sockets one after the other is removing them all |
| `Relay.LinkReceiveOk` | muxer/dispatcher.c:372-399 | receiving into the free part of the buffer and parsing keeps: queued PDUs and leftover are the reading of all octets received |
| `Relay.LinkLoadOk` | common/pdu.c:57-77 | loading a frame into an empty buffer keeps: octets sent and octets buffered are the frames loaded |
| `Relay.LinkSendOk` | muxer/dispatcher.c:757-789 | any partial send keeps that conservation |
| `Relay.SentIsPrefix` | muxer/dispatcher.c:757-789 | the PDUs that the other side can read from the octets sent so far are an initial part of the PDUs loaded |
| `Effects.ServerSends` | muxer/dispatcher.c:757-789 | however many octets the network takes, these leave the front of the server's buffer and are what was sent more, and nothing else changes |
| `Effects.ClientSends` | muxer/dispatcher.c:757-789 | the same for a client |
| `Effects.ServerSentStep` | muxer/dispatcher.c:757-789 | no other step sends anything to the server, and only the beginning of a cleanup forgets what was sent |
| `Effects.ClientSentStep` | muxer/dispatcher.c:757-789 | no other step sends anything to a client as long as its connection is open |
| `Effects.ServerLoads` | muxer/dispatcher.c:586-616 | an empty buffer takes the oldest PDU that waits as two octets of length, high octet first, and the payload; nothing else changes |
| `Effects.ClientLoads` | muxer/dispatcher.c:694-718 | the same for a client and the first message for its socket, wherever it stands in the queue |
| `Effects.ServerReadsNext` | muxer/dispatcher.c:586-616 | loading and then sending all of it lets the server read exactly one more PDU, the oldest that waited |
| `Effects.ClientReadsNext` | muxer/dispatcher.c:677-725 | the same for a client and the oldest message for its socket |
| `Effects.ClientReceives` | muxer/dispatcher.c:464-493 | all complete frames of leftover and received octets, and nothing else, are queued in order under the socket |
| `Effects.ServerReceives` | muxer/dispatcher.c:401-427 | all complete frames of leftover and received octets, and nothing else, are queued in order |
| `Effects.RequestProcessed` | muxer/protocol.c:37-113 | the sections that process a request together: the oldest leaves its queue, one PDU is queued that decodes to its command under the next id, one mapping remembers its socket and its id modulo 2^64 |
| `Effects.ReplyRouted` | muxer/protocol.c:174-216 | routing a reply: the positions of all mappings with its id, in list order; for each of them one message for the mapping's socket that decodes to command and result of the reply under the id the mapping remembers; the mappings at the other positions stay |
| `Effects.AnsweredIs` | muxer/protocol.c:183-191 | what goes back has socket and id of the mapping, command and result of the reply |
| `Effects.KeepAndHit` | muxer/mapping.c:41-70 | removing by id or by socket takes exactly the mappings at the matching positions and keeps the others in order |
| `Effects.ClientAccepted` | muxer/dispatcher.c:326-359 | a new connection begins with empty buffers and nothing else changes |
| `Effects.ClientCloses` | muxer/connection.c:40-73 | closing takes exactly the mappings of the socket, and leaves all queued messages |
| `Effects.MappingsCleared` | muxer/mapping.c:81-102 | the same removal in a cleanup, before the connection is closed |
| `Effects.CleanupBegins` | muxer/dispatcher.c:233-240 | a cleanup takes the lock of the server connection and starts its buffers over |
| `Effects.QueuesDrained` | muxer/message.c:68-83 | the draining of the outgoing queues and the end of a cleanup change nothing else |
| `Effects.ArrivalsDrained` | muxer/message.c:68-83 | the draining of the incoming queues changes nothing else |
| `Effects.LockedOut` | muxer/dispatcher.c:233-247 | while a cleanup holds the lock no step touches the buffers of the server connection |
| `MuxerInvariant.OriginStep` | muxer/dispatcher.c:618-675 | every step keeps: what waits is an order-preserving part of what was delivered, and what a connection inherited one of what was delivered to its socket before it was accepted |
| `Protocol.Muxer.ProcessIncomingInMessages` | muxer/protocol.c:37-113 | on the heap queues, processing a request is the three steps that take, map and forward it; an empty queue changes nothing |
| `Protocol.Muxer.TakeRequest` | muxer/protocol.c:43-61 | the first critical section, from any state: the oldest request, and nothing else, leaves its heap queue; one step of the state machine |
| `Protocol.Muxer.MapRequest` | muxer/protocol.c:63-85 | the second critical section, from any state: the counter goes on modulo 32767, one mapping with socket and id of the request is appended, and the PDU decodes to the command under the new id; one step |
| `Protocol.Muxer.ForwardRequest` | muxer/protocol.c:100-101 | the third critical section, from any state: the re-encoded request, and nothing else, is appended to the queue for the server; one step |
| `Protocol.Muxer.ProcessIncomingOutMessages` | muxer/protocol.c:138-221 | on the heap queues, processing a reply is the two steps that take and route it |
| `Protocol.Muxer.TakeReply` | muxer/protocol.c:146-166 | the first critical section, from any state: the oldest reply, and nothing else, leaves its heap queue; one step |
| `Protocol.Muxer.DeliverReply` | muxer/protocol.c:168-221 | the second critical section, from any state: the taken reply is decoded and routed; one step |
| `Protocol.Muxer.RouteReply` | muxer/protocol.c:174-216 | the loop that deletes while it walks removes and frees exactly the matching entries, never looks at a freed one, and queues one message per match in list order |
| `Protocol.Muxer.AnswerAndFree` | muxer/protocol.c:182-212 | a match: one message for the mapping's socket under its own id is queued, and its entry is freed behind the walk |
| `Protocol.Muxer.SendBack` | muxer/protocol.c:183-191 | the copy that is queued carries the mapping's own id, socket and the reply's content |
| `Protocol.Muxer.PutIntoSocketToRecvUnicastMsg` | muxer/protocol.c:122-136 | the counter goes on to its value modulo 32767 plus one, and one mapping with it is appended |
| `Protocol.Muxer.Relabel` | muxer/protocol.c:63-85 | the request is mapped and re-encoded under the new id; re-encoding never fails |
| `Protocol.RemoveMappingsFor` | muxer/mapping.c:41-70 | the removing loop leaves exactly the mappings of other sockets, in order, counts the others, and frees every entry it removes |
| `Walks.FreeBehind` | muxer/protocol.c:204-212 | freeing the entry just left keeps the walk on live entries |
| `Walks.TakeFirst` | muxer/protocol.c:149-154 | `q_get` followed by `q_free` of the entry that has left the queue removes exactly the first element and frees its entry |
| `Walks.Empty` | muxer/message.c:68-83 | the draining loop leaves the queue empty and frees every entry |
| `Queues.Queue.Put` | common/queue.h:25-60 | appends an entry unless it is queued already; the list stays acyclic with `tail` last |
| `Queues.Queue.Get` | common/queue.h:62-79 | removes and returns the first entry, or nothing |
| `Queues.Queue.Free` | common/queue.c:21-73 | removes the entry wherever it stands and gives it back; an absent one leaves the queue untouched |
| `Framing.ChunkIndependence` | common/pdu.c:5-55 | for any division of a stream into received pieces, parsed after each, the queued PDUs and the leftover are those of the whole stream |
| `Framing.ParseInPieces` | common/pdu.c:24-54 | reading a piece, keeping the leftover and reading on is reading the whole |
| `Framing.ParseFrames` | common/pdu.c:57-77 | framing of payloads of 1..65535 octets is inverted by parsing, whatever follows |
| `Framing.ParsePrefix` | common/pdu.c:5-55 | any initial part of the frames of payloads of 1..1022 octets queues exactly the first payloads in order, leaves a proper initial part of the next frame, and leaves receive room |
| `Framing.FrameOctets` | common/pdu.c:65-73 | a frame is the payload length in two octets, high octet first, and the payload |
| `Framing.FramesOctets` | common/pdu.c:57-77 | several frames stand one behind the other |
| `Framing.FirstPdu` | common/pdu.c:14-54 | if the first two octets, high octet first, say n > 0 and n octets follow, these are the first PDU and reading goes on behind them; otherwise nothing is read |
| `Framing.NoFrameOctets` | common/pdu.c:24-25 | a complete frame stands at the front exactly when those two octets say so |
| `Framing.ParseExactly` | common/pdu.c:5-55 | a stream reads as given PDUs and leftover if and only if it is their frames, one behind the other, and a leftover that begins no complete frame |
| `Framing.StuckExactly` | common/pdu.c:24-25 | received data can still complete a frame exactly when the leftover's header is neither zero nor too large for the buffer; such a leftover leaves room to receive |
| `Framing.AnEmptyFrameStops` | common/pdu.c:24-25 | a frame without payload is never read, nor is anything received after it |
| `Connections.Connection.ReadData` | muxer/dispatcher.c:372-399 | received octets are added behind those in the buffer; closing and failing end the connection, blocking does not |
| `Connections.Connection.ReadPdus` | common/pdu.c:5-55 | the in-place loop copies out exactly the complete frames, whose headers it reads high octet first, and keeps exactly the leftover |
| `Connections.Connection.HeaderLength` | common/pdu.c:18-20 | the header in host order is 256 times the first octet plus the second |
| `Connections.Connection.Load` | common/pdu.c:57-77 | the buffer holds exactly the frame of the PDU: its length divided by 256, its length modulo 256, its octets |
| `Connections.Connection.WriteData` | muxer/dispatcher.c:757-789 | for any number of octets that the network takes: exactly these are sent, and the others are what the buffer then holds from its front on; blocked or failed sends change nothing |
| `Connections.Connection.constructor` | muxer/connection.c:9-30 | both buffers start empty and nothing has gone through them |
| `Connections.Connection.Receive` | muxer/dispatcher.c:464-493 | the octets are received, all complete frames of leftover and octets are handed over, the rest stays in the buffer; if receiving fails, the buffers stay as they were |
| `ServerSide.ReadDataFromOutBuffer` | muxer/dispatcher.c:401-462 | on heap queue and buffer: the queue grows by every complete frame of leftover and received octets, in order; one receiving step; if receiving fails, nothing changes |
| `ServerSide.WriteDataToOutBuffer` | muxer/dispatcher.c:586-616 | on heap queue and buffer: if the buffer is empty and a PDU waits, the buffer then holds exactly its frame, octet by octet, and the PDU has left the front of the queue; otherwise nothing changes; one loading step |
| `Dispatcher.ReadInSocket` | muxer/dispatcher.c:495-546 | on the heap lists: although the scan restarts at the head after every removal, it ends, receives at most once per socket and is a run of the state machine; which connections go on, what each received and queued and where it stands in the queue, and which mappings are left, from what `select` reported and `recv` answered alone |
| `Passes.PassExactly` | muxer/dispatcher.c:504-543 | what a pass does, from the flags and the answers of `recv` alone: a connection goes on unless it is broken, or readable and closed or failed; those that go on keep their order, and their requests are queued in list order |
| `Passes.WentOnWithData` | muxer/dispatcher.c:519-541 | a connection that goes on and was readable has received exactly what `recv` gave; the complete frames are queued under its socket in order, and its writing side is untouched |
| `Passes.WentOnWithout` | muxer/dispatcher.c:519-541 | a connection that was not readable, or had nothing to be read, stays as it is and queues nothing |
| `Passes.ClosedExactly` | muxer/dispatcher.c:513-536 | exactly the listed sockets that are broken, or readable and closed or failed, are closed |
| `Passes.RevisitIsIdle` | common/pdu.c:14-25 | parsing a leftover again queues nothing and changes nothing |
| `Dispatcher.Poll` | muxer/dispatcher.c:513-526 | from the flags and the answer of `recv` alone: a socket's flags are consumed once; broken, closed and failed connections end, and exactly the octets that `recv` gave are handed on |
| `Dispatcher.RemoveConnection` | muxer/connection.c:40-73 | the loop that frees entries of the list it walks removes exactly those of the socket, frees them, and removes the mappings of the socket if there was one |
| `Passes.OthersWithout` | muxer/connection.c:47-66 | with distinct sockets that is one entry, as the source asserts |
| `Dispatcher.RemoveAllConnections` | muxer/connection.c:75-98 | stepping on before removing never meets a freed entry; all connections and all mappings of their sockets go; one closing step per connection |
| `Dispatcher.RemoveAllMappings` | muxer/mapping.c:81-102 | exactly the mappings of the listed sockets go, the others stay in order; one step per connection |
| `Dispatcher.Cleanup` | muxer/dispatcher.c:233-247 | on the heap lists and the server's buffers: all buffers and lists end empty, no mapping of a listed connection is left, and a cleanup is the run of its critical sections (lock and reset, four drained queues, one removal of mappings and one closing per connection, unlock) |
| `Dispatcher.Accept` | muxer/dispatcher.c:326-359 | the new connection, with empty buffers, is appended; it is the accepting step of the state machine |
| `Dispatcher.WriteDataToInBuffer` | muxer/dispatcher.c:677-725 | on the heap lists: every connection with an empty buffer gets the oldest message for its socket, and exactly these messages leave the queue, whose others keep their order; it is a run of the state machine |
| `Passes.RefillsExactly` | muxer/dispatcher.c:694-719 | each connection with an empty buffer takes the frame, octet by octet, of the first message for its socket that waits, and the others stay as they are |
| `Passes.LeftBehindExactly` | muxer/dispatcher.c:694-719 | exactly the oldest message for each socket of a connection with an empty buffer leaves the queue; the others keep their order |
| `Dispatcher.TakeFor` | muxer/dispatcher.c:694-718 | the search takes out and frees the first message of the socket, and only that |
| `Dispatcher.FreeMessagesOfClosedSockets` | muxer/dispatcher.c:618-675 | on the heap lists: exactly the messages for sockets that are not listed are dropped and freed; it is a run of the state machine |
| `Passes.AddressedExactly` | muxer/dispatcher.c:632-669 | exactly the messages at the positions with a listed socket are kept, in order |
| `Dispatcher.IsListed` | muxer/dispatcher.c:639-655 | the inner scan finds out whether a socket is listed |
| `Passes.AddressedKeeps` | muxer/dispatcher.c:618-675 | no live client loses a message by that |
| `Passes.ReachesInv` | muxer/dispatcher.c:495-546 | a pass keeps the whole invariant |
| `Messages.InputRoundTrip` | messages/messages.c:320-353 | every valid request is restored whatever follows it, ends on an octet boundary and takes 4 to 266 octets |
| `Messages.OutputRoundTrip` | messages/messages.c:180-221 | every valid reply is restored whatever follows it, ends on an octet boundary and takes 6 to 523 octets |
| `Messages.OctetsRoundTrip` | messages/messages.c:38-73 | every octet string of 1 to 256 octets is restored |
| `Messages.InputAlwaysDecodes` | messages/messages.c:338-353 | any 513 octets decode to some valid request |
| `Messages.OutputAlwaysDecodes` | messages/messages.c:202-221 | any 770 octets decode to some valid reply |
| `Wire.InputOctets` | messages/messages.c:320-336 | a request on the wire: the least number of octets that holds the id, the id big endian in two's complement, the size of the command less one, the command |
| `Wire.OutputOctets` | messages/messages.c:180-200 | a reply on the wire: a request, the size of the result less one, the result |
| `Wire.DecodedOctets` | messages/messages.c:338-353 | what any PDU that announces 1 to 8 id octets and holds what it announces decodes to: the big-endian two's complement number in them, and the command behind them |
| `Wire.DecodedReplyOctets` | messages/messages.c:202-221 | for a reply, in addition the result behind the command |
| `Wire.MissingOctets` | common/pdu.h:39-50 | a PDU that ends too early is read as if zeros followed it, and one that does not fit the buffer as an empty one |
| `Messages.OctetString.Encode` | messages/messages.c:38-54 | appends the encoding of a valid octet string; with the check on, an invalid one appends nothing and yields the error code |
| `Messages.OctetString.Decode` | messages/messages.c:56-73 | reads it, or fails exactly when the stream is too short |
| `Messages.InputType.Encode` | messages/messages.c:320-336 | appends the encoding of a valid request; with the check on, an invalid one appends nothing and yields the error code |
| `Messages.InputType.Decode` | messages/messages.c:338-353 | reads the request, or fails exactly when the stream is too short |
| `Messages.OutputType.Encode` | messages/messages.c:180-200 | appends the encoding of a valid reply; with the check on, an invalid one appends nothing and yields the error code of the first field that is wrong |
| `Messages.OutputType.Decode` | messages/messages.c:202-221 | reads the reply, or fails exactly when the stream is too short |
| `Pdus.InputPduRoundTrip` | common/pdu.h:20-50 | every valid request survives encoding into a PDU and decoding from the padded stream |
| `Pdus.OutputPduRoundTrip` | common/pdu.h:20-50 | every valid reply survives encoding into a PDU and decoding from the padded stream |
| `Pdus.DecodedInput` | common/pdu.h:39-50 | every PDU, well formed or not, decodes to some valid request |
| `Pdus.DecodedOutput` | common/pdu.h:39-50 | every PDU, well formed or not, decodes to some valid reply |
| `Pdus.Finished` | common/pdu.h:31-35 | cutting the stream at `currentByte` loses nothing |
| `Pdus.EncodeInPdu` | common/pdu.h:20-37 | succeeds exactly for valid requests and yields their PDU |
| `Pdus.EncodeOutPdu` | common/pdu.h:20-37 | succeeds exactly for valid replies and yields their PDU |
| `Pdus.DecodeInPdu` | common/pdu.h:39-50 | never fails and yields a valid request |
| `Pdus.DecodeOutPdu` | common/pdu.h:39-50 | never fails and yields a valid reply |
| `Per.UnconstrainedRoundTrip` | messages/asn1crt.c:590-631 | every 64-bit value is restored whatever follows |
| `Per.UnconstrainedIsMinimal` | messages/asn1crt.c:499-505 | no field of fewer octets could hold the value |
| `Per.SemiConstrainedRoundTrip` | messages/asn1crt.c:556-586 | every value not below the minimum is restored |
| `Per.ConstrainedRoundTrip` | messages/asn1crt.c:511-552 | every value in range is restored |
| `Per.ConstrainedDecodeInRange` | messages/asn1crt.c:528-552 | the decoder checks no upper bound: all it can return is in range if and only if the number of values is a power of two |
| `Per.AFourthOfThreeValues` | messages/asn1crt.c:528-552 | two one-bits decode to 3 where 0..2 was announced |
| `Per.FixedWidthRoundTrip` | messages/asn1crt.c:343-389 | a value padded to any width is restored from that width |
| `Per.TwosRoundTrip` | messages/asn1crt.c:596-604 | every value is restored from a two's complement field that can hold it |
| `Layouts.ConstrainedLayout` | messages/asn1crt.c:511-524 | a constrained number is its distance from the minimum, most significant bit first, in the least number of bits that holds the range |
| `Layouts.SemiConstrainedLayout` | messages/asn1crt.c:556-568 | a semi-constrained number is the least number of octets that holds the distance from the minimum, and these octets |
| `Per.UnsignedOctetsLeast` | messages/asn1crt.c:459-477 | the octet count of an unsigned value is the least that holds it |
| `Per.SignedOctetsLeast` | messages/asn1crt.c:499-505 | the octet count of a signed value is the least whose two's complement range holds it |
| `Integers.GetNumberOfBitsForNonNegativeInteger32` | messages/asn1crt.c:414-435 | the number of significant bits |
| `Integers.GetNumberOfBitsForNonNegativeInteger` | messages/asn1crt.c:437-449 | the number of significant bits, across the 32-bit halves |
| `Integers.GetLengthInBytesOfUInt` | messages/asn1crt.c:459-477 | the fewest octets |
| `Integers.GetLengthSIntHelper` | messages/asn1crt.c:479-497 | the octets of a magnitude with a sign bit |
| `Integers.GetLengthInBytesOfSInt` | messages/asn1crt.c:499-505 | the fewest two's complement octets |
| `Integers.EncodeNonNegativeInteger32Neg` | messages/asn1crt.c:273-317 | appends exactly the significant bits, complemented on request |
| `Integers.EncodeNonNegativeInteger` | messages/asn1crt.c:343-363 | appends exactly the significant bits of a 64-bit value |
| `Integers.EncodeNonNegativeIntegerNeg` | messages/asn1crt.c:391-412 | the same, complemented on request, although the low half is complemented as a number and padded separately |
| `Integers.DecodeNonNegativeInteger32Neg` | messages/asn1crt.c:319-341 | reads the number in the next bits, octets first and the partial octet last, and advances by the width |
| `Integers.DecodeNonNegativeInteger` | messages/asn1crt.c:365-389 | the same for any width up to 64, split after the first 32 bits |
| `Integers.EncodeConstraintWholeNumber` | messages/asn1crt.c:511-524 | appends the constrained encoding |
| `Integers.DecodeConstraintWholeNumber` | messages/asn1crt.c:528-552 | reads it, or fails exactly when the stream is too short |
| `Integers.EncodeSemiConstraintWholeNumber` | messages/asn1crt.c:556-568 | appends the semi-constrained encoding |
| `Integers.DecodeSemiConstraintWholeNumber` | messages/asn1crt.c:571-586 | reads it, or fails exactly when the stream is too short |
| `Integers.EncodeUnConstraintWholeNumber` | messages/asn1crt.c:590-605 | appends the unconstrained encoding of every 64-bit value |
| `Integers.DecodeUnConstraintWholeNumber` | messages/asn1crt.c:607-631 | reads it, or fails exactly when the stream is too short |
| `BitStreams.BitStream.Init` | messages/asn1crt.c:32-38 | nothing written, everything zero |
| `BitStreams.BitStream.AttachBuffer` | messages/asn1crt.c:40-46 | the cursor stands at the first bit |
| `BitStreams.BitStream.GetLength` | messages/asn1crt.c:48-55 | the octets that the written bits occupy |
| `BitStreams.BitStream.AppendBitOne` | messages/asn1crt.c:57-68 | appends a one at any alignment; earlier bits stay, later bits stay zero |
| `BitStreams.BitStream.AppendBitZero` | messages/asn1crt.c:70-79 | appends a zero |
| `BitStreams.BitStream.AppendNBitZero` | messages/asn1crt.c:81-86 | appends zeros by moving the cursor |
| `BitStreams.BitStream.AppendNBitOne` | messages/asn1crt.c:88-99 | appends ones |
| `BitStreams.BitStream.AppendBits` | messages/asn1crt.c:101-113 | appends the first bits of an octet string |
| `BitStreams.BitStream.AppendBit` | messages/asn1crt.c:115-128 | appends one bit |
| `BitStreams.BitStream.ReadBit` | messages/asn1crt.c:130-141 | returns the next bit and advances by one |
| `BitStreams.BitStream.AppendByte` | messages/asn1crt.c:143-156 | appends an octet, complemented on request, at any alignment |
| `BitStreams.BitStream.AppendByte0` | messages/asn1crt.c:158-171 | appends an octet at any alignment |
| `BitStreams.BitStream.ReadByte` | messages/asn1crt.c:173-184 | returns the next eight bits and advances by eight, or reports that they are not there |
| `BitStreams.BitStream.ReadBits` | messages/asn1crt.c:186-206 | returns the next bits, the last octet padded with zeros |
| `BitStreams.BitStream.AppendPartialByte` | messages/asn1crt.c:208-233 | appends the low bits of an octet, complemented on request, across an octet boundary if need be |
| `BitStreams.BitStream.ReadPartialByte` | messages/asn1crt.c:235-257 | returns the next few bits right-aligned, across an octet boundary if need be |
| `Bytes.Place` | messages/asn1crt.c:158-171 | or-ing a padded field into bits that are still zero appends exactly the field |
| `Layouts.OctetBit` | messages/asn1crt.c:130-141 | bit k of an octet on the stream is worth 2^(7-k) of its value |
| `Layouts.FieldBit` | messages/asn1crt.c:273-317 | bit j of a field of w bits is the number divided by 2^(w-1-j), modulo 2 |
| `Acn.TwosComplementRoundTrip` | messages/acn.c:286-377 | every width from 1 to 64 restores every value it can hold |
| `Acn.EncTwosComplement` | messages/acn.c:286-298 | appends the two's complement field |
| `Acn.DecTwosComplement` | messages/acn.c:341-377 | reads it, whole octets first and the partial octet last, or fails exactly when the stream is too short |
| `Acn.EncPositiveInteger` | messages/acn.c:57-71 | appends the field of the given width |
| `Acn.DecPositiveInteger` | messages/acn.c:137-148 | reads the field of the given width |
| `Acn.OctetOrdersRoundTrip` | messages/acn.c:78-116 | in either octet order a value that fits is restored |
| `Acn.LittleEndianRoundTrip` | messages/acn.c:108-211 | the little-endian octets of a word restore the part of the word they hold |
| `Layouts.LittleEndianOctet` | messages/acn.c:108-119 | octet j in little-endian order is the number divided by 2^(8j), modulo 256 |
| `Acn.EncBigEndian` | messages/acn.c:78-91 | appends the low octets, most significant first |
| `Acn.EncLittleEndian` | messages/acn.c:108-119 | appends the low octets, least significant first |
| `Acn.DecBigEndian` | messages/acn.c:159-175 | reads them as a word |
| `Acn.DecLittleEndian` | messages/acn.c:192-211 | reads them as a word |
| `Acn.DecTwosOctets` | messages/acn.c:388-440 | reads them as a two's complement number |
| `Acn.EncodeUnsignedInteger` | messages/acn.c:231-246 | the octets that leave at the top of the shifted word are the low octets of the value |
| `Acn.EncPositiveVarSize` | messages/acn.c:252-266 | appends the bits of a semi-constrained number |
| `Acn.DecPositiveVarSize` | messages/acn.c:268-284 | reads it as the semi-constrained decoder does |
| `Acn.EncTwosVarSize` | messages/acn.c:460-473 | appends the bits of an unconstrained number |
| `Acn.DecTwosVarSize` | messages/acn.c:476-507 | reads it as the unconstrained decoder does, on an unsigned word |
| `Words.Int2UInt` | messages/ber.c:252-261 | the two's complement word of a value |
| `Words.UInt2Int` | messages/ber.c:263-272 | the two's complement number in the low octets of a word |
| `Decimals.ConstSizeRoundTrip` | messages/acn.c:525-627 | BCD over all non-negative values and ASCII over all values, the smallest included if the product wraps around, restored from any field they fit |
| `Decimals.LengthEmbeddedRoundTrip` | messages/acn.c:635-769 | the same behind a length octet |
| `Decimals.NullTerminatedRoundTrip` | messages/acn.c:661-786 | the same up to a terminator |
| `Decimals.NumDigitsLeast` | messages/acn.c:513-522 | the digit count is the least that holds the value |
| `Layouts.DecimalDigit` | messages/acn.c:525-577 | digit j of n is the number divided by 10^(n-1-j), modulo 10, as a nibble or as its character, most significant first |
| `Layouts.DecimalFrame` | messages/acn.c:525-672 | the sign character in front, the length octet before, the terminator behind the digits |
| `Decimals.GetIntSizeBCD` | messages/acn.c:513-522 | the number of digits |
| `Decimals.GetIntSizeASCII` | messages/acn.c:734-742 | digits and sign, the smallest value included |
| `Decimals.EncConstSize` | messages/acn.c:525-577 | appends sign and digits of the given size |
| `Decimals.DecConstSize` | messages/acn.c:585-626 | reads the number, or fails exactly when a digit or the sign is missing or, in ASCII, wrong |
| `Decimals.EncLengthEmbedded` | messages/acn.c:635-646 | appends length and number, in both forms |
| `Decimals.DecLengthEmbedded` | messages/acn.c:648-656 | reads them |
| `Decimals.EncNullTerminated` | messages/acn.c:661-672 | appends number and terminator, in both forms |
| `Decimals.DecNullTerminated` | messages/acn.c:675-714 | reads up to the terminator, or fails exactly when there is none or the sign is wrong |
| `Ber.IntegerRoundTrip` | messages/ber.c:274-318 | every 64-bit value is restored, and encoded in the fewest octets |
| `Ber.LengthRoundTrip` | messages/ber.c:167-226 | lengths 0..2^31-1 are restored across short and long form |
| `Ber.TagRoundTrip` | messages/ber.c:109-143 | every non-zero tag is recognised |
| `Ber.SameTagExactly` | messages/ber.c:138-141 | a tag is recognised exactly in its primitive and its constructed form |
| `Ber.OctetStringRoundTrip` | messages/ber.c:565-609 | an octet string is restored whatever follows |
| `Ber.BitStringRoundTrip` | messages/ber.c:490-562 | a bit string keeps its bit count and its octets |
| `Layouts.LengthLayout` | messages/ber.c:203-226 | a length up to 127 is one octet; a longer one is 128 plus the least number of octets, and these, big endian |
| `Layouts.IntegerLayout` | messages/ber.c:274-292 | an integer is its tag, the least number of octets, and the value big endian in two's complement |
| `Layouts.StringLayout` | messages/ber.c:490-581 | tag, length and octets of an octet string; for a bit string the number of unused bits before them |
| `Ber.ByteStream.Init` | messages/asn1crt.c:850-857 | the stream starts empty |
| `Ber.ByteStream.AttachBuffer` | messages/asn1crt.c:859-864 | the cursor stands at the first octet |
| `Ber.ByteStream.PutByte` | messages/ber.c:37-45 | appends an octet, or reports that the stream is full; index `count` is still accepted |
| `Ber.ByteStream.GetByte` | messages/ber.c:56-62 | returns the next octet, or reports that there is none |
| `Ber.ByteStream.EncodeUInt` | messages/ber.c:65-91 | appends the octets of a word without leading zeros, or fails exactly when they do not fit |
| `Ber.ByteStream.EncodeUInt2` | messages/ber.c:93-106 | appends the given number of low octets |
| `Ber.ByteStream.EncodeTag` | messages/ber.c:109-111 | appends the octets of the tag |
| `Ber.ByteStream.DecodeTag` | messages/ber.c:113-143 | recognises the tag or fails |
| `Ber.ByteStream.EncodeLength` | messages/ber.c:203-226 | appends short or long form |
| `Ber.ByteStream.DecodeLength` | messages/ber.c:167-201 | reads either form, and minus one for the indefinite form |
| `Ber.ByteStream.EncodeInteger` | messages/ber.c:274-292 | appends tag, octet count and two's complement octets |
| `Ber.ByteStream.DecodeInteger` | messages/ber.c:294-318 | reads them, or fails exactly when the tag differs or octets are missing |
| `Ber.ByteStream.EncodeOctetString` | messages/ber.c:565-581 | appends tag, length and octets |
| `Ber.ByteStream.DecodeOctetString` | messages/ber.c:583-609 | keeps the octets that fit and zeros behind them, and reads past the others |
| `Ber.ByteStream.EncodeBitString` | messages/ber.c:490-519 | appends tag, length, unused bits and octets |
| `Ber.ByteStream.DecodeBitString` | messages/ber.c:521-562 | keeps the octets that fit and counts the bits |
| `Reals.RestoredExactly` | messages/asn1crt.c:662-823 | for every pattern: it comes back bit for bit, whatever the uninitialised exponent held, if and only if it is not minus zero, not a negative NaN, and its biased exponent is not in 1075..1202 |
| `Reals.ANumberIsLost` | messages/asn1crt.c:796-806 | 2^52 does not come back when the uninitialised exponent happens to be one |
| `Reals.NormalExact` | messages/real.c:66-74 | normalisation ends with the mantissa in [2^52, 2^53) and keeps m*2^e exactly up to 53 bits; above that if and only if the dropped bits are zero |
| `Reals.ComposeDecomposed` | messages/real.c:29-87 | composing the parts of any pattern gives the pattern back, up to the sign; subnormals with their spurious hidden bit included |
| `Reals.DecomposeComposed` | messages/real.c:29-87 | the parts of a composed pattern are the normalised mantissa and exponent |
| `Reals.RealRestored` | messages/asn1crt.c:690-823 | what exactly comes back of a number, as a function of the uninitialised exponent |
| `Reals.SpecialRestored` | messages/asn1crt.c:670-688 | zero and the infinities come back, minus zero as zero |
| `Layouts.RealLayout` | messages/asn1crt.c:690-724 | a number is its length, a header of sign and exponent length, the unbiased exponent in the least one or two octets, and the 53-bit mantissa in seven |
| `Layouts.SpecialLayout` | messages/asn1crt.c:670-688 | zeros are empty, infinities are one octet |
| `Reals.GetDoubleByMantissaAndExp` | messages/real.c:54-87 | the two loops normalise, and the result is assembled from twelve exponent bits |
| `Reals.EncodeReal` | messages/asn1crt.c:662-724 | appends length, header, exponent and mantissa, or the short forms |
| `Reals.DecodeReal` | messages/asn1crt.c:731-763 | reads what was written, refusing decimal forms |
| `Reals.DecodeRealAsBinaryEncoding` | messages/asn1crt.c:766-823 | base, scale, sign, exponent and mantissa as the header says |
| `Reals.DecodeExponent` | messages/asn1crt.c:796-806 | the exponent, whose start is garbage unless the first octet is negative |
| `Reals.DecodeMantissa` | messages/asn1crt.c:809-814 | the mantissa as a 64-bit word |

## Left out

- Sockets, `select`, `accept`, connecting and the listener: I/O. What `recv` and `send` answer and what `select` reports are parameters, accepting is a step.
- Events, thread start and stop, the handshake around cleanup: every outermost critical section is one atomic step, a cleanup may begin and go on between any two of them in any order of its sections, and nothing is claimed about liveness or deadlock. The connection list may change between the sections of a cleanup more than its lock allows, which only adds runs. `q_free` at muxer/dispatcher.c:607 runs after its critical section is left; it is modelled inside it.
- Logging, configuration, allocation failure, `CHECK_BIT_STREAM` and the other assertions: assertions that restrict callers are preconditions; the one about oversized headers (common/pdu.c:22) is taken as compiled out.
- Dispatcher.ReadInSocket: states an undisturbed pass; in the source the locks of the request queue and of the mappings are free between its turns, each of which is a step. The puts of one reception are one step too: taking from the other end commutes with them, and a drain between two of them is a drain between two shorter receptions. The entries of the connection list hold the buffers of a connection as values; that the array code computes those values is proved once, in `Connections`. The parsed PDUs are queued straight from a sequence, without the temporary queue of common/pdu.c:43-45.
- Dispatcher.WriteDataToInBuffer: the buffers are values in the same way, and the pass is undisturbed, though the lock of the reply queue is free between its turns.
- Dispatcher.RemoveAllMappings: states an undisturbed pass; each turn by itself is a step, and the theorems about runs let the processing thread come in between.
- Dispatcher.Cleanup: states an undisturbed cleanup in the same way.
- Protocol.Muxer.DeliverReply: the puts of one reply are one step, under the lock of the mappings; the source frees the lock of the reply queue between two puts, which needs two outstanding requests with one id, and what a drain of that queue just then would leave is not covered.
- Protocol.Muxer.ProcessIncomingInMessages: states the run of its sections without other threads between them; each section by itself is proved from any state, and the theorems about runs let other steps come in between.
- Protocol.Muxer.ProcessIncomingOutMessages: the same.
- Messages.InputType.Encode: a value that violates its size is only passed with the check on, because unchecked its length would not fit its field.
- Messages.OutputType.Encode: the same.
- Messages.OctetString.Encode: the same.
- Setting `ref` to NULL before an entry is freed is not modelled; that no freed entry is looked at again is proved instead.
- `write_in_socket`: the scan of `read_in_socket` with `write_data` in place of `read_data`; its per-connection effect is `Connections.Connection.WriteData`.
- The multicast mapping list, which is never filled.
- Decimals.ConstSizeRoundTrip: the smallest 64-bit value is restored only if negating it wraps around, which C leaves undefined.
- Ber.ByteStream.DecodeInteger: contents of no or more than eight octets are excluded, because `uint2int` would shift by an undefined amount.
- Ber.ByteStream.DecodeTag: tags to be recognised have at most 32 bits, because for longer ones the source shifts an `int` by 32 bits or more, which C leaves undefined. The encoders take all 64-bit tags.
- Ber.ByteStream.DecodeOctetString: begins with that tag, of at most 32 bits.
- Ber.ByteStream.DecodeBitString: the same.
- Ber.ByteStream.PutByte: a stream over exactly `count` octets can be initialised and attached, but is read and written only if its buffer has one octet more, because the source lets index `count` through.
- Decimals.EncConstSize: for the smallest 64-bit value under the BCD flag the characters that the source writes are what is stated; they are not decoded back.
- BER booleans, nulls, character strings, indefinite lengths and REAL: easy repeats.
- messages/xer.c, decimal REAL, the variant of messages/real.c for compilers without `frexp`, the IEEE casts and `Acn_AlignToNextDWord` of messages/acn.c.
- The demonstration programs test_client and test_server.

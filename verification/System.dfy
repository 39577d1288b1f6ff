/**
 * The whole multiplexer as a state machine over its critical sections, and what holds in every state
 * that any interleaving of its threads and any behaviour of the network can reach.
 */
module MuxerSystem {
  import opened Bytes
  import opened Per
  import opened Pdus
  import opened Framing
  import opened Relay

  /**
   * A client connection. `inherited` are the messages that already waited for its socket number when it was
   * accepted; `base` of them had been delivered to that number by then, and `since` requests had arrived in all.
   */
  datatype Client = Client(link: Link, inherited: seq<Pdu>, base: nat, since: nat)

  /** The local state of the processing thread between two critical sections. */
  datatype Proc = Idle | Requesting(request: InMessage) | Forwarding(pdu: Pdu) | Replying(reply: Pdu)

  /**
   * A reply routed back: the request it answers, counted from the first one ever, the reply, and how many replies
   * had been taken from their queue by then, itself included.
   */
  datatype Answer = Answer(gen: nat, reply: Pdu, turn: nat)

  /** What has happened; no step looks at it. */
  datatype History = History(
    arrived: seq<InMessage>,     // what was ever queued from the clients
    taken: nat,                  // how many of them have left the queue
    discarded: set<nat>,         // which of those a cleanup threw away
    froms: seq<nat>,             // which of them were issued, the last one perhaps not yet
    issued: seq<InMessage>,      // the requests that were given an id, first to last
    gens: seq<nat>,              // for each outstanding mapping, the request it was made for
    forwarded: seq<Pdu>,         // what was queued for the server
    forwardedBase: nat,          // how many of them before the server's buffers were last reset
    replies: seq<Pdu>,           // what was queued from the server
    repliesBase: nat,            // how many of them before the server's buffers were last reset
    handled: nat,                // how many of them have left the queue
    routes: seq<nat>,            // which of those were taken to be routed, the last one perhaps not yet done
    thrown: set<nat>,            // which of those a cleanup threw away
    answers: seq<Answer>,
    delivered: seq<InMessage>)   // what was queued for the clients

  datatype Sys = Sys(
    clients: map<int, Client>,
    server: Link,
    locked: bool,                // the cleanup thread holds the lock of the server connection
    rIn: seq<InMessage>, wIn: seq<InMessage>, rOut: seq<Pdu>, wOut: seq<Pdu>,
    mappings: seq<Mapping>, counter: uint64,
    proc: Proc,
    h: History)

  datatype Step =
    | Accept(socket: int)
    | ReceiveClient(socket: int, data: seq<byte>)
    | Close(socket: int)
    | ReceiveServer(data: seq<byte>)
    | TakeRequest
    | MapRequest
    | ForwardRequest
    | TakeReply
    | DeliverReply
    | LoadServer
    | SendServer(n: nat)
    | LoadClient(socket: int)
    | SendClient(socket: int, n: nat)
    | Drop(i: nat)
    | BeginCleanup
    | DrainRIn
    | DrainWIn
    | DrainROut
    | DrainWOut
    | ClearMappings(socket: int)
    | EndCleanup

  const INIT := Sys(map[], FRESH_LINK, false, [], [], [], [], [], 0, Idle,
                    History([], 0, {}, [], [], [], [], 0, [], 0, 0, [], {}, [], []))

  // ---------------------------------------------------------------- messages of one socket

  /** The PDUs of the messages for one socket, in queue order. */
  function For(socket: int, ms: seq<InMessage>): seq<Pdu> {
    if ms == [] then []
    else For(socket, ms[..|ms| - 1]) + (if ms[|ms| - 1].socket == socket then [ms[|ms| - 1].pdu] else [])
  }

  /** The position of the first message for a socket, or the length of the queue. */
  function FirstFor(socket: int, ms: seq<InMessage>): (i: nat)
    ensures i <= |ms|
    ensures i < |ms| ==> ms[i].socket == socket
    ensures forall j :: 0 <= j < i ==> ms[j].socket != socket
  {
    if ms == [] || ms[0].socket == socket then 0 else 1 + FirstFor(socket, ms[1..])
  }

  function Tagged(socket: int, ps: seq<Pdu>): (r: seq<InMessage>)
    ensures |r| == |ps| && forall i :: 0 <= i < |ps| ==> r[i] == InMessage(socket, ps[i])
  {
    seq(|ps|, i requires 0 <= i < |ps| => InMessage(socket, ps[i]))
  }

  // ---------------------------------------------------------------- gens follow mappings

  /** The entries of `gens` whose mappings stay. */
  function KeepGens(gens: seq<nat>, ms: seq<Mapping>, k: Key): (r: seq<nat>)
    requires |gens| == |ms|
    ensures |r| == |Keep(ms, k)|
  {
    if ms == [] then []
    else KeepGens(gens[..|ms| - 1], ms[..|ms| - 1], k) + (if Hits(ms[|ms| - 1], k) then [] else [gens[|ms| - 1]])
  }

  /** The entries of `gens` whose mappings are removed. */
  function HitGens(gens: seq<nat>, ms: seq<Mapping>, k: Key): (r: seq<nat>)
    requires |gens| == |ms|
    ensures |r| == |Hit(ms, k)|
  {
    if ms == [] then []
    else HitGens(gens[..|ms| - 1], ms[..|ms| - 1], k) + (if Hits(ms[|ms| - 1], k) then [gens[|ms| - 1]] else [])
  }

  function Answers(gens: seq<nat>, reply: Pdu, turn: nat): (r: seq<Answer>)
    ensures |r| == |gens| && forall i :: 0 <= i < |gens| ==> r[i] == Answer(gens[i], reply, turn)
  {
    seq(|gens|, i requires 0 <= i < |gens| => Answer(gens[i], reply, turn))
  }

  // ---------------------------------------------------------------- the steps

  function DoAccept(s: Sys, socket: int): Sys
    requires socket !in s.clients
  {
    s.(clients := s.clients[socket :=
         Client(FRESH_LINK, For(socket, s.wIn), |For(socket, s.h.delivered)|, |s.h.arrived|)])
  }

  function DoReceiveClient(s: Sys, socket: int, data: seq<byte>): Sys
    requires socket in s.clients
  {
    var c := s.clients[socket];
    var parsed := Tagged(socket, Parse(c.link.r + data).pdus);
    s.(clients := s.clients[socket := c.(link := LinkReceive(c.link, data))],
       rIn := s.rIn + parsed,
       h := s.h.(arrived := s.h.arrived + parsed))
  }

  function DoReceiveServer(s: Sys, data: seq<byte>): Sys {
    var parsed := Parse(s.server.r + data).pdus;
    s.(server := LinkReceive(s.server, data),
       rOut := s.rOut + parsed,
       h := s.h.(replies := s.h.replies + parsed))
  }

  /** `remove_connection`: the mappings of the socket go, its queued messages stay. */
  function DoClose(s: Sys, socket: int): Sys
    requires |s.h.gens| == |s.mappings|
  {
    var k := BySockets({socket});
    s.(clients := s.clients - {socket},
       mappings := Keep(s.mappings, k),
       h := s.h.(gens := KeepGens(s.h.gens, s.mappings, k)))
  }

  function DoTakeRequest(s: Sys): Sys
    requires s.rIn != []
  {
    s.(rIn := s.rIn[1..], proc := Requesting(s.rIn[0]),
       h := s.h.(taken := s.h.taken + 1, froms := s.h.froms + [s.h.taken]))
  }

  function DoMapRequest(s: Sys): Sys
    requires s.proc.Requesting?
  {
    var id := NextId(s.counter);
    var m := s.proc.request;
    s.(counter := id,
       mappings := s.mappings + [Mapping(m.socket, Unsigned64(DecodedInput(m.pdu).invokeid), id)],
       proc := Forwarding(Forwarded(m.pdu, id)),
       h := s.h.(gens := s.h.gens + [|s.h.issued|], issued := s.h.issued + [m]))
  }

  function DoTakeReply(s: Sys): Sys
    requires s.rOut != []
  {
    s.(rOut := s.rOut[1..], proc := Replying(s.rOut[0]),
       h := s.h.(handled := s.h.handled + 1, routes := s.h.routes + [s.h.handled]))
  }

  function DoDeliverReply(s: Sys): Sys
    requires s.proc.Replying? && |s.h.gens| == |s.mappings|
  {
    var reply := DecodedOutput(s.proc.reply);
    var k := ById(Unsigned64(reply.invokeid));
    var out := AnsweredAll(Hit(s.mappings, k), reply);
    s.(wIn := s.wIn + out,
       mappings := Keep(s.mappings, k),
       proc := Idle,
       h := s.h.(gens := KeepGens(s.h.gens, s.mappings, k),
                 answers := s.h.answers + Answers(HitGens(s.h.gens, s.mappings, k), s.proc.reply, |s.h.routes|),
                 delivered := s.h.delivered + out))
  }

  function DoLoadServer(s: Sys): Sys
    requires s.wOut != []
  {
    s.(server := LinkLoad(s.server, s.wOut[0]), wOut := s.wOut[1..])
  }

  function DoLoadClient(s: Sys, socket: int): Sys
    requires socket in s.clients && FirstFor(socket, s.wIn) < |s.wIn|
  {
    var i, c := FirstFor(socket, s.wIn), s.clients[socket];
    s.(clients := s.clients[socket := c.(link := LinkLoad(c.link, s.wIn[i].pdu))], wIn := s.wIn[..i] + s.wIn[i + 1..])
  }

  function DoSendClient(s: Sys, socket: int, n: nat): Sys
    requires socket in s.clients && n <= |s.clients[socket].link.w|
  {
    var c := s.clients[socket];
    s.(clients := s.clients[socket := c.(link := LinkSend(c.link, n))])
  }

  /** `cleanup` takes the lock of the server connection and resets its buffers. */
  function DoBeginCleanup(s: Sys): Sys {
    s.(locked := true, server := FRESH_LINK,
       h := s.h.(forwardedBase := s.h.forwardedBase + |s.server.loaded|, repliesBase := |s.h.replies|))
  }

  /** Arrival number `p` still waits. */
  predicate IsUnread(h: History, p: nat) {
    h.taken <= p < |h.arrived|
  }

  function Unread(h: History): set<nat> {
    set p: nat | p < |h.arrived| && IsUnread(h, p)
  }

  function DoDrainRIn(s: Sys): Sys {
    s.(rIn := [], h := s.h.(taken := |s.h.arrived|, discarded := s.h.discarded + Unread(s.h)))
  }

  /** Reply number `p` still waits. */
  predicate IsUnrouted(h: History, p: nat) {
    h.handled <= p < |h.replies|
  }

  function Unrouted(h: History): set<nat> {
    set p: nat | p < |h.replies| && IsUnrouted(h, p)
  }

  function DoDrainROut(s: Sys): Sys {
    s.(rOut := [], h := s.h.(handled := |s.h.replies|, thrown := s.h.thrown + Unrouted(s.h)))
  }

  /** `remove_all_mappings`, for one of the listed connections. */
  function DoClearMappings(s: Sys, socket: int): Sys
    requires |s.h.gens| == |s.mappings|
  {
    var k := BySockets({socket});
    s.(mappings := Keep(s.mappings, k), h := s.h.(gens := KeepGens(s.h.gens, s.mappings, k)))
  }

  predicate Enabled(s: Sys, step: Step) {
    && |s.h.gens| == |s.mappings|
    && match step
       case Accept(socket) => socket > 0 && socket !in s.clients
       case ReceiveClient(socket, data) => socket in s.clients && |s.clients[socket].link.r| + |data| <= BUFFER_KSIZE
       case Close(socket) => socket in s.clients
       case ReceiveServer(data) => !s.locked && |s.server.r| + |data| <= BUFFER_KSIZE
       case TakeRequest => s.proc == Idle && s.rIn != []
       case MapRequest => s.proc.Requesting?
       case ForwardRequest => s.proc.Forwarding?
       case TakeReply => s.proc == Idle && s.rOut != []
       case DeliverReply => s.proc.Replying?
       case LoadServer => !s.locked && s.server.w == [] && s.wOut != []
       case SendServer(n) => !s.locked && n <= |s.server.w|
       case LoadClient(socket) => socket in s.clients && s.clients[socket].link.w == []
         && FirstFor(socket, s.wIn) < |s.wIn|
       case SendClient(socket, n) => socket in s.clients && n <= |s.clients[socket].link.w|
       case Drop(i) => i < |s.wIn| && s.wIn[i].socket !in s.clients
       case BeginCleanup => !s.locked
       case DrainRIn => s.locked
       case DrainWIn => s.locked
       case DrainROut => s.locked
       case DrainWOut => s.locked
       case ClearMappings(socket) => s.locked && socket in s.clients
       case EndCleanup => s.locked
  }

  /** One step; a step that is not enabled leaves the state alone. */
  function Next(s: Sys, step: Step): Sys {
    if !Enabled(s, step) then s
    else match step
      case Accept(socket) => DoAccept(s, socket)
      case ReceiveClient(socket, data) => DoReceiveClient(s, socket, data)
      case Close(socket) => DoClose(s, socket)
      case ReceiveServer(data) => DoReceiveServer(s, data)
      case TakeRequest => DoTakeRequest(s)
      case MapRequest => DoMapRequest(s)
      case ForwardRequest =>
        s.(wOut := s.wOut + [s.proc.pdu], proc := Idle, h := s.h.(forwarded := s.h.forwarded + [s.proc.pdu]))
      case TakeReply => DoTakeReply(s)
      case DeliverReply => DoDeliverReply(s)
      case LoadServer => DoLoadServer(s)
      case SendServer(n) => s.(server := LinkSend(s.server, n))
      case LoadClient(socket) => DoLoadClient(s, socket)
      case SendClient(socket, n) => DoSendClient(s, socket, n)
      case Drop(i) => s.(wIn := s.wIn[..i] + s.wIn[i + 1..])
      case BeginCleanup => DoBeginCleanup(s)
      case DrainRIn => DoDrainRIn(s)
      case DrainWIn => s.(wIn := [])
      case DrainROut => DoDrainROut(s)
      case DrainWOut => s.(wOut := [], h := s.h.(forwardedBase := |s.h.forwarded|))
      case ClearMappings(socket) => DoClearMappings(s, socket)
      case EndCleanup => s.(locked := false)
  }

  /** The state after any sequence of steps. */
  function Run(s: Sys, steps: seq<Step>): Sys {
    if steps == [] then s else Next(Run(s, steps[..|steps| - 1]), steps[|steps| - 1])
  }

  ghost predicate Reachable(s: Sys) {
    exists steps :: s == Run(INIT, steps)
  }

  // ---------------------------------------------------------------- the invariant

  /** The mapping that was made for request number `k`. */
  function MappingOf(issued: seq<InMessage>, k: nat): Mapping
    requires k < |issued|
  {
    Mapping(issued[k].socket, Unsigned64(DecodedInput(issued[k].pdu).invokeid), IdOf(k))
  }

  predicate Increasing(gens: seq<nat>) {
    forall i, j :: 0 <= i < j < |gens| ==> gens[i] < gens[j]
  }

  /** Every mapping belongs to exactly one request, oldest first. */
  predicate Tracks(ms: seq<Mapping>, gens: seq<nat>, issued: seq<InMessage>) {
    && |ms| == |gens| && Increasing(gens)
    && forall i :: 0 <= i < |ms| ==> gens[i] < |issued| && ms[i] == MappingOf(issued, gens[i])
  }

  predicate IdsInv(s: Sys) {
    && s.counter == (if s.h.issued == [] then 0 else IdOf(|s.h.issued| - 1))
    && Tracks(s.mappings, s.h.gens, s.h.issued)
  }

  /**
   * Every request that has left its queue was issued, is being issued, or was thrown away by a cleanup, and
   * requests are issued in the order they arrived.
   */
  predicate SourcesInv(s: Sys) {
    && s.h.taken <= |s.h.arrived| && s.rIn == s.h.arrived[s.h.taken..]
    && |s.h.froms| == |s.h.issued| + (if s.proc.Requesting? then 1 else 0) && Increasing(s.h.froms)
    && (forall k :: 0 <= k < |s.h.froms| ==> s.h.froms[k] < s.h.taken)
    && (forall k :: 0 <= k < |s.h.issued| ==> s.h.issued[k] == s.h.arrived[s.h.froms[k]])
    && (s.proc.Requesting? ==> s.proc.request == s.h.arrived[s.h.froms[|s.h.issued|]])
    && (forall p: nat :: p < s.h.taken ==> p in s.h.froms || p in s.h.discarded)
    && (forall p :: p in s.h.discarded ==> p < s.h.taken && p !in s.h.froms)
  }

  /** Every issued request is forwarded once, in order and under its id, the last one perhaps not yet. */
  predicate ForwardsInv(s: Sys) {
    && |s.h.issued| == |s.h.forwarded| + (if s.proc.Forwarding? then 1 else 0)
    && (forall k :: 0 <= k < |s.h.forwarded| ==> s.h.forwarded[k] == Forwarded(s.h.issued[k].pdu, IdOf(k)))
    && (s.proc.Forwarding? ==> s.proc.pdu == Forwarded(s.h.issued[|s.h.issued| - 1].pdu, IdOf(|s.h.issued| - 1)))
  }

  /** What the client of request number `a.gen` gets for reply `a.reply`. */
  function DeliveredFor(issued: seq<InMessage>, a: Answer): InMessage
    requires a.gen < |issued|
  {
    Answered(MappingOf(issued, a.gen), DecodedOutput(a.reply))
  }

  /** The delivery `d` answers request `a.gen`, which is no longer outstanding, with a reply that carried its id. */
  predicate AnswerOk(h: History, a: Answer, d: InMessage) {
    && a.gen < |h.issued|
    && a.gen !in h.gens
    && a.reply in h.replies
    && Unsigned64(DecodedOutput(a.reply).invokeid) == IdOf(a.gen)
    && d == DeliveredFor(h.issued, a)
  }

  /** Every delivery answers one request, and no request is answered twice. */
  predicate AnswersInv(h: History) {
    && |h.answers| == |h.delivered|
    && (forall i :: 0 <= i < |h.answers| ==> AnswerOk(h, h.answers[i], h.delivered[i]))
    && (forall i, j :: 0 <= i < j < |h.answers| ==> h.answers[i].gen != h.answers[j].gen)
  }

  /**
   * Every reply that has left its queue was taken to be routed or was thrown away by a cleanup, and replies are
   * routed in the order they arrived.
   */
  predicate RepliesInv(s: Sys) {
    && s.h.handled <= |s.h.replies| && s.rOut == s.h.replies[s.h.handled..]
    && Increasing(s.h.routes) && (forall k :: 0 <= k < |s.h.routes| ==> s.h.routes[k] < s.h.handled)
    && (s.proc.Replying? ==> s.h.routes != [] && s.proc.reply == s.h.replies[s.h.routes[|s.h.routes| - 1]])
    && (forall p: nat :: p < s.h.handled ==> p in s.h.routes || p in s.h.thrown)
    && (forall p :: p in s.h.thrown ==> p < s.h.handled && p !in s.h.routes)
  }

  /** What was delivered answers the replies in the order they were taken, up to the one in progress. */
  predicate TurnsInv(s: Sys) {
    && (forall i :: 0 <= i < |s.h.answers| ==> TurnOk(s.h, s.h.answers[i]))
    && (forall i, j :: 0 <= i < j < |s.h.answers| ==> s.h.answers[i].turn <= s.h.answers[j].turn)
  }

  predicate TurnOk(h: History, a: Answer) {
    1 <= a.turn <= |h.routes| && h.routes[a.turn - 1] < |h.replies| && a.reply == h.replies[h.routes[a.turn - 1]]
  }

  /** What `write_pdu_to_send_buffer` asserts of a PDU: it is as long as a header and fits behind one. */
  predicate Loadable(p: Pdu) {
    PDU_HEADER_LENGTH <= |p| <= BUFFER_KSIZE - PDU_HEADER_LENGTH
  }

  predicate LinksInv(s: Sys) {
    && LinkOk(s.server)
    && (forall c :: c in s.clients ==> LinkOk(s.clients[c].link))
    && (forall i :: 0 <= i < |s.wIn| ==> Loadable(s.wIn[i].pdu))
  }

  /** All that a connection may expect to read: what waited when it was accepted, and what was delivered since. */
  function Owed(c: Client, delivered: seq<Pdu>): seq<Pdu>
    requires c.base <= |delivered|
  {
    c.inherited + delivered[c.base..]
  }

  /**
   * What was loaded for a live client and what waits is an order-preserving part of what it is owed, and what it
   * sent is what arrived from its socket since it was accepted.
   */
  predicate FlowOk(c: Client, delivered: seq<Pdu>, waiting: seq<Pdu>, arrived: seq<InMessage>, socket: int) {
    && c.base <= |delivered| && Within(c.link.loaded + waiting, Owed(c, delivered))
    && c.since <= |arrived| && For(socket, arrived[c.since..]) == c.link.queued
  }

  predicate ClientFlow(s: Sys, socket: int)
    requires socket in s.clients
  {
    FlowOk(s.clients[socket], For(socket, s.h.delivered), For(socket, s.wIn), s.h.arrived, socket)
  }

  /**
   * What was loaded for the server and what waits is what was forwarded since its buffers were reset, and what it
   * sent since then are the replies that arrived.
   */
  predicate ServerOk(s: Sys) {
    && s.h.forwardedBase <= |s.h.forwarded| && s.server.loaded + s.wOut == s.h.forwarded[s.h.forwardedBase..]
    && s.h.repliesBase <= |s.h.replies| && s.server.queued == s.h.replies[s.h.repliesBase..]
    && (s.locked ==> s.server.loaded == [])
  }

  predicate FlowInv(s: Sys) {
    ServerOk(s) && forall socket :: socket in s.clients ==> ClientFlow(s, socket)
  }

  /** `a` is an order-preserving part of `b`. */
  predicate Within<T(==)>(a: seq<T>, b: seq<T>) {
    if a == [] then true
    else if b == [] then false
    else
      var i, j := |a| - 1, |b| - 1;
      (a[i] == b[j] && Within(a[..i], b[..j])) || Within(a, b[..j])
  }

  /**
   * What waits in the shared queue is an order-preserving part of what was delivered, and what a connection
   * inherited is one of what was delivered to its socket before it was accepted.
   */
  predicate OriginInv(s: Sys) {
    && Within(s.wIn, s.h.delivered)
    && forall socket :: socket in s.clients ==> OriginOk(s.clients[socket], For(socket, s.h.delivered))
  }

  predicate OriginOk(c: Client, delivered: seq<Pdu>) {
    c.base <= |delivered| && Within(c.inherited, delivered[..c.base])
  }

  predicate Inv(s: Sys) {
    && IdsInv(s) && SourcesInv(s) && ForwardsInv(s) && AnswersInv(s.h) && RepliesInv(s) && TurnsInv(s)
    && LinksInv(s) && FlowInv(s) && OriginInv(s)
  }
}

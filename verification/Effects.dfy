/**
 * What the steps of the state machine do, said of octets, positions in lists and decoded messages rather than by the
 * functions that the steps are made of.
 */
module Effects {
  import opened Bytes
  import opened Per
  import opened Messages
  import opened Pdus
  import opened Framing
  import opened Parts
  import opened Relay
  import opened MuxerSystem
  import opened MuxerInvariant
  import opened Transparency

  // ---------------------------------------------------------------- sending and loading

  /** However many octets the network takes, these and no others are gone from the buffer and were sent. */
  lemma ServerSends(s: Sys, n: nat)
    requires |s.h.gens| == |s.mappings| && !s.locked && n <= |s.server.w|
    ensures var t := Next(s, SendServer(n));
            && |t.server.sent| == |s.server.sent| + n
            && t.server.sent == s.server.sent + s.server.w[..n] && t.server.w == s.server.w[n..]
            && t == s.(server := s.server.(w := t.server.w, sent := t.server.sent))
  {
  }

  lemma ClientSends(s: Sys, socket: int, n: nat)
    requires |s.h.gens| == |s.mappings| && socket in s.clients && n <= |s.clients[socket].link.w|
    ensures var t, c := Next(s, SendClient(socket, n)), s.clients[socket];
            && socket in t.clients
            && var l := t.clients[socket].link;
            && |l.sent| == |c.link.sent| + n && l.sent == c.link.sent + c.link.w[..n] && l.w == c.link.w[n..]
            && t == s.(clients := s.clients[socket := c.(link := c.link.(w := l.w, sent := l.sent))])
  {
  }

  /** No other step sends anything to the server, and what was sent is forgotten only when a cleanup begins. */
  lemma ServerSentStep(s: Sys, step: Step)
    requires |s.h.gens| == |s.mappings|
    ensures Next(s, step).server.sent ==
            if step.BeginCleanup? && !s.locked then []
            else if step.SendServer? && !s.locked && step.n <= |s.server.w| then s.server.sent + s.server.w[..step.n]
            else s.server.sent
  {
    hide Keep, KeepGens, HitGens, Hit, DecodedOutput, DecodedInput, AnsweredAll, Answers, Parse, Tagged, For, FirstFor,
      Forwarded, NextId, Frame, Unread, Unrouted;
  }

  /** No other step sends anything to a client as long as its connection is open. */
  lemma ClientSentStep(s: Sys, step: Step, socket: int)
    requires |s.h.gens| == |s.mappings| && socket in s.clients && socket in Next(s, step).clients
    ensures var l := s.clients[socket].link;
            Next(s, step).clients[socket].link.sent ==
              if step.SendClient? && step.socket == socket && step.n <= |l.w| then l.sent + l.w[..step.n] else l.sent
  {
    hide Keep, KeepGens, HitGens, Hit, DecodedOutput, DecodedInput, AnsweredAll, Answers, Parse, Tagged, For, FirstFor,
      Forwarded, NextId, Frame, Unread, Unrouted;
  }

  /** An empty buffer takes the frame of the oldest PDU: two octets of length, high octet first, and the payload. */
  lemma ServerLoads(s: Sys)
    requires |s.h.gens| == |s.mappings| && !s.locked && s.server.w == [] && s.wOut != [] && Loadable(s.wOut[0])
    ensures var t, p := Next(s, LoadServer), s.wOut[0];
            && |t.server.w| == |p| + 2 && t.server.w[2..] == p
            && t.server.w[0] as int == |p| / 256 && t.server.w[1] as int == |p| % 256
            && t == s.(server := s.server.(w := t.server.w, loaded := s.server.loaded + [p]), wOut := s.wOut[1..])
  {
    hide Frame;
    FrameOctets(s.wOut[0]);
  }

  /** An empty buffer of a client takes the frame of the first message for its socket. */
  lemma ClientLoads(s: Sys, socket: int, j: nat)
    requires |s.h.gens| == |s.mappings| && socket in s.clients && s.clients[socket].link.w == []
    requires j < |s.wIn| && s.wIn[j].socket == socket && forall k :: 0 <= k < j ==> s.wIn[k].socket != socket
    requires Loadable(s.wIn[j].pdu)
    ensures var t, c, p := Next(s, LoadClient(socket)), s.clients[socket], s.wIn[j].pdu;
            && socket in t.clients
            && var w := t.clients[socket].link.w;
            && |w| == |p| + 2 && w[2..] == p && w[0] as int == |p| / 256 && w[1] as int == |p| % 256
            && t == s.(clients := s.clients[socket := c.(link := c.link.(w := w, loaded := c.link.loaded + [p]))],
                       wIn := s.wIn[..j] + s.wIn[j + 1..])
  {
    hide Frame, FirstFor;
    FrameOctets(s.wIn[j].pdu);
    First(s.wIn, socket, j);
  }

  lemma First(ms: seq<InMessage>, socket: int, j: nat)
    requires j < |ms| && ms[j].socket == socket && forall k :: 0 <= k < j ==> ms[k].socket != socket
    ensures FirstFor(socket, ms) == j
  {
    hide FirstFor;
    var i := FirstFor(socket, ms);
    assert i < |ms| ==> ms[i].socket == socket;
  }

  /** Once everything that was loaded is sent, the other side has read all of it. */
  lemma AllRead(l: Link)
    requires LinkOk(l) && l.w == []
    ensures Parse(l.sent).pdus == l.loaded
  {
    hide Parse, Frames;
    ParseFrames(l.loaded, []);
    NothingParsed();
    assert l.sent + [] == l.sent && l.loaded + [] == l.loaded;
    assert Frames(l.loaded) + [] == Frames(l.loaded);
  }

  lemma NothingParsed()
    ensures Parse([]) == Parsed([], [])
  {
  }

  lemma LinkOf(s: Sys, socket: int)
    requires Inv(s)
    ensures LinkOk(s.server) && |s.h.gens| == |s.mappings|
    ensures socket in s.clients ==> LinkOk(s.clients[socket].link)
    ensures forall i :: 0 <= i < |s.wIn| ==> Loadable(s.wIn[i].pdu)
  {
    hide LinkOk, Loadable, SourcesInv, ForwardsInv, AnswersInv, RepliesInv, TurnsInv, FlowInv, OriginInv, MappingOf;
  }

  /** Loading and then sending all of it lets the server read exactly one more PDU, the oldest that waited. */
  lemma ServerReadsNext(s: Sys)
    requires Reachable(s) && !s.locked && s.server.w == [] && s.wOut != []
    ensures var a := Next(s, LoadServer);
            var t := Next(a, SendServer(|a.server.w|));
            && Parse(t.server.sent).pdus == Parse(s.server.sent).pdus + [s.wOut[0]]
            && t.server.w == [] && t.wOut == s.wOut[1..]
  {
    hide Inv, Parse, Reachable, LinkOk, Next, Loadable;
    ReachableInv(s);
    LinkOf(s, 0);
    WaitingIsLoadable(s);
    ServerLoads(s);
    var a := Next(s, LoadServer);
    ServerSends(a, |a.server.w|);
    var t := Next(a, SendServer(|a.server.w|));
    InvStep(s, LoadServer);
    InvStep(a, SendServer(|a.server.w|));
    LinkOf(t, 0);
    AllRead(s.server);
    AllRead(t.server);
  }

  /** The same for a client and the oldest message for its socket. */
  lemma ClientReadsNext(s: Sys, socket: int, j: nat)
    requires Reachable(s) && socket in s.clients && s.clients[socket].link.w == []
    requires j < |s.wIn| && s.wIn[j].socket == socket && forall k :: 0 <= k < j ==> s.wIn[k].socket != socket
    ensures var a := Next(s, LoadClient(socket));
            socket in a.clients
            && var t := Next(a, SendClient(socket, |a.clients[socket].link.w|));
               && socket in t.clients && t.clients[socket].link.w == [] && t.wIn == s.wIn[..j] + s.wIn[j + 1..]
               && Parse(t.clients[socket].link.sent).pdus ==
                  Parse(s.clients[socket].link.sent).pdus + [s.wIn[j].pdu]
  {
    hide Inv, Parse, Reachable, LinkOk, Next, Loadable;
    ReachableInv(s);
    LinkOf(s, socket);
    ClientLoads(s, socket, j);
    var a := Next(s, LoadClient(socket));
    var n := |a.clients[socket].link.w|;
    InvStep(s, LoadClient(socket));
    LinkOf(a, socket);
    ClientSends(a, socket, n);
    var t := Next(a, SendClient(socket, n));
    InvStep(a, SendClient(socket, n));
    LinkOf(t, socket);
    AllRead(s.clients[socket].link);
    AllRead(t.clients[socket].link);
  }

  // ---------------------------------------------------------------- receiving

  /** All complete frames of what was left over and what came are queued, in order, and nothing else is. */
  lemma ClientReceives(s: Sys, socket: int, data: seq<byte>)
    requires |s.h.gens| == |s.mappings| && socket in s.clients && |s.clients[socket].link.r| + |data| <= 1024
    ensures var t, c := Next(s, ReceiveClient(socket, data)), s.clients[socket];
            var p, n := Parse(c.link.r + data), |s.rIn|;
            && |t.rIn| == n + |p.pdus| && t.rIn[..n] == s.rIn
            && (forall i :: 0 <= i < |p.pdus| ==> t.rIn[n + i] == InMessage(socket, p.pdus[i]))
            && t == s.(clients := s.clients[socket := c.(link := c.link.(r := p.rest,
                                    received := c.link.received + data, queued := c.link.queued + p.pdus))],
                       rIn := t.rIn, h := s.h.(arrived := s.h.arrived + t.rIn[n..]))
  {
    hide Parse;
    var t, n := Next(s, ReceiveClient(socket, data)), |s.rIn|;
    assert t.rIn[n..] == Tagged(socket, Parse(s.clients[socket].link.r + data).pdus);
  }

  lemma ServerReceives(s: Sys, data: seq<byte>)
    requires |s.h.gens| == |s.mappings| && !s.locked && |s.server.r| + |data| <= 1024
    ensures var t, l, p := Next(s, ReceiveServer(data)), s.server, Parse(s.server.r + data);
            t == s.(server := l.(r := p.rest, received := l.received + data, queued := l.queued + p.pdus),
                    rOut := s.rOut + p.pdus, h := s.h.(replies := s.h.replies + p.pdus))
  {
    hide Parse, Keep, KeepGens, HitGens, Hit, Tagged, For, FirstFor, Unread, Unrouted, DoReceiveClient, DoDeliverReply,
      DoMapRequest, DoLoadClient, DoAccept, DoClose;
    assert Next(s, ReceiveServer(data)) == DoReceiveServer(s, data);
  }

  // ---------------------------------------------------------------- processing

  /** The oldest request, or reply, leaves its queue. */
  lemma RequestTaken(s: Sys)
    requires |s.h.gens| == |s.mappings| && s.proc == Idle && s.rIn != []
    ensures var t := Next(s, TakeRequest);
            && t == s.(rIn := s.rIn[1..], proc := Requesting(s.rIn[0]), h := t.h)
            && t.h.gens == s.h.gens && t.h.froms == s.h.froms + [s.h.taken] && t.h.taken == s.h.taken + 1
  {
  }

  lemma ReplyTaken(s: Sys)
    requires |s.h.gens| == |s.mappings| && s.proc == Idle && s.rOut != []
    ensures var t := Next(s, TakeReply);
            && t == s.(rOut := s.rOut[1..], proc := Replying(s.rOut[0]), h := t.h)
            && t.h.gens == s.h.gens && t.h.routes == s.h.routes + [s.h.handled] && t.h.handled == s.h.handled + 1
  {
  }

  /** The request in progress gets its mapping and its new id. */
  lemma RequestMapped(s: Sys)
    requires |s.h.gens| == |s.mappings| && s.proc.Requesting?
    ensures var t, r, id := Next(s, MapRequest), s.proc.request, s.counter % 32767 + 1;
            && t == s.(counter := id, proc := Forwarding(Forwarded(r.pdu, id)), h := t.h,
                       mappings := s.mappings +
                         [Mapping(r.socket, DecodedInput(r.pdu).invokeid % 0x1_0000_0000_0000_0000, id)])
            && t.h.gens == s.h.gens + [|s.h.issued|] && t.h.issued == s.h.issued + [r]
  {
    hide DecodedInput, Forwarded;
  }

  /**
   * The three sections that process a request, one after the other: the oldest one leaves the queue, the server will
   * read its command under the next id, and one mapping remembers the socket and the id it came with.
   */
  lemma RequestProcessed(s: Sys)
    requires |s.h.gens| == |s.mappings| && s.proc == Idle && s.rIn != []
    ensures var t, r := Next(Next(Next(s, TakeRequest), MapRequest), ForwardRequest), s.rIn[0];
            var id, n := s.counter % 32767 + 1, |s.wOut|;
            && |t.wOut| == n + 1 && t.wOut[..n] == s.wOut
            && DecodedInput(t.wOut[n]) == Input(id, DecodedInput(r.pdu).command)
            && t == s.(rIn := s.rIn[1..], wOut := t.wOut, counter := id, h := t.h,
                       mappings := s.mappings +
                         [Mapping(r.socket, DecodedInput(r.pdu).invokeid % 0x1_0000_0000_0000_0000, id)])
            && t.h.issued == s.h.issued + [r] && t.h.gens == s.h.gens + [|s.h.issued|]
            && t.h.froms == s.h.froms + [s.h.taken] && t.h.taken == s.h.taken + 1
            && t.h.forwarded == s.h.forwarded + [t.wOut[n]]
  {
    hide DecodedInput, Forwarded, InputPdu;
    ForwardedIs(s.rIn[0].pdu, s.counter % 32767 + 1);
    var a := Next(s, TakeRequest);
    assert a == DoTakeRequest(s);
    var b := Next(a, MapRequest);
    assert b == DoMapRequest(a);
  }

  lemma ForwardedIs(request: Pdu, id: uint64)
    requires 1 <= id <= 32767
    ensures DecodedInput(Forwarded(request, id)) == Input(id, DecodedInput(request).command)
  {
    hide DecodedInput, InputPdu;
    WrapFits(id);
    InputPduRoundTrip(DecodedInput(request).(invokeid := id));
  }

  /** Every position below `n` is in one of two lists: in `out` if it is flagged, in `at` if it is not. */
  ghost predicate Sorted(flags: seq<bool>, at: seq<nat>, out: seq<nat>) {
    && (forall i: nat :: i in at || i in out ==> i < |flags|)
    && (forall i: nat :: i < |flags| ==> (i in out <==> flags[i]) && (i in at <==> !flags[i]))
  }

  lemma SortedMore(flags: seq<bool>, f: bool, at: seq<nat>, out: seq<nat>)
    requires Sorted(flags, at, out)
    ensures if f then Sorted(flags + [f], at, out + [|flags|]) else Sorted(flags + [f], at + [|flags|], out)
  {
    forall i: nat ensures i in at + [|flags|] <==> i in at || i == |flags| { InMore(at, |flags|, i); }
    forall i: nat ensures i in out + [|flags|] <==> i in out || i == |flags| { InMore(out, |flags|, i); }
  }

  function Flags(ms: seq<Mapping>, k: Key): (flags: seq<bool>)
    ensures |flags| == |ms| && forall i :: 0 <= i < |ms| ==> flags[i] == Hits(ms[i], k)
  {
    seq(|ms|, i requires 0 <= i < |ms| => Hits(ms[i], k))
  }

  lemma FlagsMore(ms: seq<Mapping>, k: Key)
    requires ms != []
    ensures Flags(ms, k) == Flags(ms[..|ms| - 1], k) + [Hits(ms[|ms| - 1], k)]
  {
    hide Hits;
  }

  /** `at` are the positions of the mappings that stay, `out` of those that go, with the requests they are for. */
  ghost predicate Split(gens: seq<nat>, ms: seq<Mapping>, k: Key, at: seq<nat>, out: seq<nat>)
    requires |gens| == |ms|
  {
    && Picks(at, ms, Keep(ms, k)) && Picks(at, gens, KeepGens(gens, ms, k))
    && Picks(out, ms, Hit(ms, k)) && Picks(out, gens, HitGens(gens, ms, k))
    && Sorted(Flags(ms, k), at, out)
  }

  lemma {:induction false} SplitMappings(gens: seq<nat>, ms: seq<Mapping>, k: Key) returns (at: seq<nat>, out: seq<nat>)
    requires |gens| == |ms|
    ensures Split(gens, ms, k, at, out)
    decreases |ms|
  {
    hide Hits, Split;
    if ms == [] {
      at, out := [], [];
      SplitNothing(k);
    } else {
      var n := |ms| - 1;
      at, out := SplitMappings(gens[..n], ms[..n], k);
      SplitLast(gens, ms, k, at, out);
      if Hits(ms[n], k) { out := out + [n]; } else { at := at + [n]; }
    }
  }

  lemma SplitNothing(k: Key)
    ensures Split([], [], k, [], [])
  {
  }

  lemma SplitLast(gens: seq<nat>, ms: seq<Mapping>, k: Key, at: seq<nat>, out: seq<nat>)
    requires |gens| == |ms| > 0
    requires Split(gens[..|ms| - 1], ms[..|ms| - 1], k, at, out)
    ensures var n := |ms| - 1;
            if Hits(ms[n], k) then Split(gens, ms, k, at, out + [n]) else Split(gens, ms, k, at + [n], out)
  {
    hide Picks, Keep, Hit, KeepGens, HitGens, Hits, Sorted, Flags;
    var n := |ms| - 1;
    LastKeptOrHit(ms, k);
    GensSnoc(gens, ms, k);
    PicksMore(at, ms, Keep(ms[..n], k), n);
    PicksMore(out, ms, Hit(ms[..n], k), n);
    PicksMore(at, gens, KeepGens(gens[..n], ms[..n], k), n);
    PicksMore(out, gens, HitGens(gens[..n], ms[..n], k), n);
    FlagsMore(ms, k);
    SortedMore(Flags(ms[..n], k), Hits(ms[n], k), at, out);
    assert ms[..n + 1] == ms && gens[..n + 1] == gens;
  }

  /**
   * Exactly the mappings with the id, or of the sockets, are removed: `at` are the positions of those that stay and
   * `out` the positions of those that go, both in list order.
   */
  lemma KeepAndHit(ms: seq<Mapping>, k: Key) returns (at: seq<nat>, out: seq<nat>)
    ensures |at| == |Keep(ms, k)| && |out| == |Hit(ms, k)|
    ensures forall i, j :: 0 <= i < j < |at| ==> at[i] < at[j]
    ensures forall i, j :: 0 <= i < j < |out| ==> out[i] < out[j]
    ensures forall i :: 0 <= i < |at| ==> at[i] < |ms| && Keep(ms, k)[i] == ms[at[i]]
    ensures forall i :: 0 <= i < |out| ==> out[i] < |ms| && Hit(ms, k)[i] == ms[out[i]]
    ensures forall i: nat :: i < |ms| ==>
              (i in out <==> match k case ById(id) => ms[i].generated == id case BySockets(all) => ms[i].socket in all)
    ensures forall i: nat :: i < |ms| ==> (i in at <==> i !in out)
  {
    hide Keep, Hit, KeepGens, HitGens;
    at, out := SplitMappings(seq(|ms|, _ => 0), ms, k);
  }

  /** What goes back: the socket and the id are the mapping's, the command and the result those of the reply. */
  lemma AnsweredIs(m: Mapping, reply: Output)
    requires OutputValid(reply)
    ensures var d := Answered(m, reply);
            var got := DecodedOutput(d.pdu);
            && d.socket == m.socket && got.command == reply.command && got.result == reply.result
            && got.invokeid % 0x1_0000_0000_0000_0000 == m.original
  {
    hide DecodedOutput, OutputPdu;
    OutputPduRoundTrip(reply.(invokeid := Wrap64(m.original)));
  }

  /**
   * Routing a reply: `out` are the positions of all mappings with its id. For each of them, in list order, one message
   * is queued for the mapping's socket; it decodes to the command and the result of the reply under the id that the
   * mapping remembers. The mappings at the other positions `at` stay.
   */
  lemma ReplyRouted(s: Sys) returns (at: seq<nat>, out: seq<nat>)
    requires |s.h.gens| == |s.mappings| && s.proc.Replying?
    ensures forall i, j :: 0 <= i < j < |at| ==> at[i] < at[j]
    ensures forall i, j :: 0 <= i < j < |out| ==> out[i] < out[j]
    ensures forall i :: 0 <= i < |at| ==> at[i] < |s.mappings|
    ensures forall i :: 0 <= i < |out| ==> out[i] < |s.mappings|
    ensures var id := DecodedOutput(s.proc.reply).invokeid % 0x1_0000_0000_0000_0000;
            forall i: nat :: i < |s.mappings| ==>
              (i in out <==> s.mappings[i].generated == id) && (i in at <==> s.mappings[i].generated != id)
    ensures var t, n, reply := Next(s, DeliverReply), |s.wIn|, DecodedOutput(s.proc.reply);
            && |t.wIn| == n + |out| && t.wIn[..n] == s.wIn
            && (forall j :: 0 <= j < |out| ==>
                  var m, got := s.mappings[out[j]], DecodedOutput(t.wIn[n + j].pdu);
                  && t.wIn[n + j].socket == m.socket && got.command == reply.command && got.result == reply.result
                  && got.invokeid % 0x1_0000_0000_0000_0000 == m.original)
            && |t.mappings| == |at| && (forall i :: 0 <= i < |at| ==> t.mappings[i] == s.mappings[at[i]])
            && t == s.(wIn := t.wIn, mappings := t.mappings, proc := Idle, h := t.h)
  {
    hide DecodedOutput, Keep, Hit, Answered;
    var reply := DecodedOutput(s.proc.reply);
    var k := ById(Unsigned64(reply.invokeid));
    at, out := SplitMappings(s.h.gens, s.mappings, k);
    DeliveryIs(s);
    hide Next, KeepGens, HitGens;
    var t, n := Next(s, DeliverReply), |s.wIn|;
    forall j | 0 <= j < |out|
      ensures var m, got := s.mappings[out[j]], DecodedOutput(t.wIn[n + j].pdu);
              && t.wIn[n + j].socket == m.socket && got.command == reply.command && got.result == reply.result
              && got.invokeid % 0x1_0000_0000_0000_0000 == m.original
    {
      AnsweredIs(s.mappings[out[j]], reply);
    }
  }

  lemma DeliveryIs(s: Sys)
    requires |s.h.gens| == |s.mappings| && s.proc.Replying?
    ensures var t, reply := Next(s, DeliverReply), DecodedOutput(s.proc.reply);
            var k := ById(Unsigned64(reply.invokeid));
            t == s.(wIn := s.wIn + AnsweredAll(Hit(s.mappings, k), reply), mappings := Keep(s.mappings, k),
                    proc := Idle, h := t.h)
  {
    hide DecodedOutput, Keep, Hit, KeepGens, HitGens, AnsweredAll, Answers;
  }

  // ---------------------------------------------------------------- connections and cleaning up

  lemma ClientAccepted(s: Sys, socket: int)
    requires |s.h.gens| == |s.mappings| && socket > 0 && socket !in s.clients
    ensures var t := Next(s, Accept(socket));
            && socket in t.clients && t.clients[socket].link == Link([], [], [], [], [], [])
            && t.clients[socket].inherited == For(socket, s.wIn) && t.clients[socket].since == |s.h.arrived|
            && t.clients[socket].base == |For(socket, s.h.delivered)|
            && t == s.(clients := s.clients[socket := t.clients[socket]])
  {
    hide For;
  }

  /** The mappings of the closed connection go, those at the other positions `at` stay, and so do all messages. */
  lemma ClientCloses(s: Sys, socket: int) returns (at: seq<nat>)
    requires |s.h.gens| == |s.mappings| && socket in s.clients
    ensures forall i, j :: 0 <= i < j < |at| ==> at[i] < at[j]
    ensures forall i :: 0 <= i < |at| ==> at[i] < |s.mappings|
    ensures forall i: nat :: i < |s.mappings| ==> (i in at <==> s.mappings[i].socket != socket)
    ensures var t := Next(s, Close(socket));
            && |t.mappings| == |at| && (forall i :: 0 <= i < |at| ==> t.mappings[i] == s.mappings[at[i]])
            && t == s.(clients := s.clients - {socket}, mappings := t.mappings, h := s.h.(gens := t.h.gens))
  {
    hide Keep, KeepGens, Hit, HitGens;
    var out;
    at, out := SplitMappings(s.h.gens, s.mappings, BySockets({socket}));
  }

  /** The same without closing it, which is what a cleanup does first. */
  lemma MappingsCleared(s: Sys, socket: int) returns (at: seq<nat>)
    requires |s.h.gens| == |s.mappings| && s.locked && socket in s.clients
    ensures forall i, j :: 0 <= i < j < |at| ==> at[i] < at[j]
    ensures forall i :: 0 <= i < |at| ==> at[i] < |s.mappings|
    ensures forall i: nat :: i < |s.mappings| ==> (i in at <==> s.mappings[i].socket != socket)
    ensures var t := Next(s, ClearMappings(socket));
            && |t.mappings| == |at| && (forall i :: 0 <= i < |at| ==> t.mappings[i] == s.mappings[at[i]])
            && t == s.(mappings := t.mappings, h := s.h.(gens := t.h.gens))
  {
    hide Keep, KeepGens, Hit, HitGens;
    var out;
    at, out := SplitMappings(s.h.gens, s.mappings, BySockets({socket}));
  }

  /** A cleanup locks the server connection and starts its buffers over. */
  lemma CleanupBegins(s: Sys)
    requires |s.h.gens| == |s.mappings| && !s.locked
    ensures var t := Next(s, BeginCleanup);
            t == s.(locked := true, server := Link([], [], [], [], [], []), h := t.h)
  {
  }

  /** Then each queue is emptied on its own, and the lock is given back. */
  lemma QueuesDrained(s: Sys)
    requires |s.h.gens| == |s.mappings| && s.locked
    ensures Next(s, DrainWIn) == s.(wIn := []) && Next(s, EndCleanup) == s.(locked := false)
    ensures var t := Next(s, DrainWOut); t == s.(wOut := [], h := t.h)
  {
  }

  lemma ArrivalsDrained(s: Sys)
    requires |s.h.gens| == |s.mappings| && s.locked
    ensures var t := Next(s, DrainRIn); t == s.(rIn := [], h := t.h)
    ensures var t := Next(s, DrainROut); t == s.(rOut := [], h := t.h)
  {
    hide Unread, Unrouted;
  }

  /** While a cleanup holds the lock of the server connection, its buffers are left alone. */
  lemma LockedOut(s: Sys, step: Step)
    requires s.locked
    ensures Next(s, step).server == s.server
  {
    hide Keep, KeepGens, HitGens, Hit, DecodedOutput, DecodedInput, AnsweredAll, Answers, Parse, Tagged, For, FirstFor,
      Forwarded, NextId, LinkReceive, LinkLoad, LinkSend, Unread, Unrouted;
  }
}

/**
 * What belongs to a connection rather than to its socket number, which the system reuses: when mappings
 * outlive the connection they were made for, and when a connection only reads answers to its own requests.
 */
module Ownership {
  import opened Per
  import opened Messages
  import opened Pdus
  import opened Framing
  import opened Relay
  import opened MuxerSystem
  import opened MuxerInvariant
  import opened Transparency

  // ---------------------------------------------------------------- mappings of closed connections

  predicate AllLive(ms: seq<Mapping>, live: set<int>) {
    forall i :: 0 <= i < |ms| ==> ms[i].socket in live
  }

  /** Every mapping's socket is a live connection. */
  predicate MappingsLive(s: Sys) {
    AllLive(s.mappings, s.clients.Keys)
  }

  /** A request is processed whose connection is no longer listed. */
  predicate MapsClosed(s: Sys, step: Step) {
    step.MapRequest? && s.proc.Requesting? && s.proc.request.socket !in s.clients
  }

  lemma KeepLive(ms: seq<Mapping>, live: set<int>, k: Key, gone: set<int>)
    requires AllLive(ms, live) && (k.BySockets? ==> gone <= k.sockets) && (!k.BySockets? ==> gone == {})
    ensures AllLive(Keep(ms, k), live - gone)
  {
    KeepIsRest(ms, k);
    var r := Keep(ms, k);
    forall i | 0 <= i < |r| ensures r[i].socket in live - gone {
      assert r[i] in ms && !Hits(r[i], k);
    }
  }

  /** Exactly one kind of step leaves a mapping without a live connection. */
  lemma MappingsLiveStep(s: Sys, step: Step)
    requires |s.h.gens| == |s.mappings| && MappingsLive(s)
    ensures MappingsLive(Next(s, step)) <==> !MapsClosed(s, step)
  {
    hide Keep, AllLive, KeepGens, HitGens, Hit, DecodedOutput, AnsweredAll, Answers, Parse, Tagged, For, FirstFor;
    if step.MapRequest? && s.proc.Requesting? {
      MapLive(s);
    } else if Enabled(s, step) {
      var live := s.clients.Keys;
      assert live - {} == live;
      match step {
        case Close(socket) => KeepLive(s.mappings, live, BySockets({socket}), {socket});
        case ClearMappings(socket) => KeepLive(s.mappings, live, BySockets({socket}), {});
        case DeliverReply => KeepLive(s.mappings, live, ById(Unsigned64(DecodedOutput(s.proc.reply).invokeid)), {});
        case _ => StillLive(s.mappings, live, Next(s, step).clients.Keys);
      }
    }
  }

  lemma StillLive(ms: seq<Mapping>, live: set<int>, more: set<int>)
    requires AllLive(ms, live) && live <= more
    ensures AllLive(ms, more)
  {
  }

  lemma MapLive(s: Sys)
    requires |s.h.gens| == |s.mappings| && MappingsLive(s) && s.proc.Requesting?
    ensures MappingsLive(Next(s, MapRequest)) <==> s.proc.request.socket in s.clients
  {
    hide DecodedInput, NextId, Next;
    Mapped(s);
    var t, n := Next(s, MapRequest), |s.mappings|;
    assert t.mappings[n].socket == s.proc.request.socket;
    assert forall i :: 0 <= i < n ==> t.mappings[i] == s.mappings[i];
  }

  /**
   * Over a whole run: every mapping's socket stays a live connection exactly as long as no request is
   * processed after its connection was closed.
   */
  lemma {:induction false} MappingsLiveThroughout(steps: seq<Step>)
    ensures (forall n :: 0 <= n <= |steps| ==> MappingsLive(Run(INIT, steps[..n]))) <==>
            (forall n :: 0 <= n < |steps| ==> !MapsClosed(Run(INIT, steps[..n]), steps[n]))
    decreases |steps|
  {
    hide Next, Run, MapsClosed, Inv, MappingsLive;
    if steps == [] {
      NoMappings();
      assert steps[..0] == [];
    } else {
      var m := |steps| - 1;
      var init := steps[..m];
      MappingsLiveThroughout(init);
      assert forall n :: 0 <= n <= m ==> init[..n] == steps[..n];
      assert steps[..|steps|] == steps;
      InvAlways(init);
      RunLast(steps);
      IdsOf(Run(INIT, init));
      SameLength(Run(INIT, init));
      if MappingsLive(Run(INIT, init)) {
        MappingsLiveStep(Run(INIT, init), steps[m]);
      }
    }
  }

  lemma NoMappings()
    ensures Run(INIT, []) == INIT && MappingsLive(INIT)
  {
  }

  /** A request still queued when its connection closes leaves such a mapping behind. */
  lemma AMappingOutlivesItsClient() returns (steps: seq<Step>)
    ensures var s := Run(INIT, steps);
            Reachable(s) && |s.mappings| == 1 && s.mappings[0].socket !in s.clients && !MappingsLive(s)
  {
    hide Run, Next, Flooded, Tracked, MappingsLive;
    steps := Flood(0);
    var s := Run(INIT, steps);
    var frame := Frame(InputPdu(REQUEST));
    AlwaysTracked(steps);
    RunMore(steps, ReceiveClient(1, frame));
    RunMore(steps + [ReceiveClient(1, frame)], Close(1));
    RunMore(steps + [ReceiveClient(1, frame)] + [Close(1)], TakeRequest);
    RunMore(steps + [ReceiveClient(1, frame)] + [Close(1)] + [TakeRequest], MapRequest);
    steps := steps + [ReceiveClient(1, frame)] + [Close(1)] + [TakeRequest] + [MapRequest];
    Orphaned(s);
    assert Reachable(Run(INIT, steps));
  }

  lemma AlwaysTracked(steps: seq<Step>)
    ensures Tracked(Run(INIT, steps))
  {
    hide Run, Inv;
    InvAlways(steps);
    IdsOf(Run(INIT, steps));
    SameLength(Run(INIT, steps));
  }

  lemma Orphaned(s: Sys)
    requires Flooded(s, 0) && Tracked(s)
    ensures var t := Next(Next(Next(Next(s, ReceiveClient(1, Frame(InputPdu(REQUEST)))), Close(1)), TakeRequest),
            MapRequest);
            |t.mappings| == 1 && t.mappings[0].socket !in t.clients && !MappingsLive(t)
  {
    hide Frame, InputPdu, Parse, DecodedInput, Forwarded;
    var p := InputPdu(REQUEST);
    WholeFrame(p);
    var a := Next(s, ReceiveClient(1, Frame(p)));
    assert a.rIn == [InMessage(1, p)] && a.mappings == [];
    var b := Next(a, Close(1));
    assert b.rIn == a.rIn && b.mappings == [] && 1 !in b.clients;
    var c := Next(b, TakeRequest);
    assert c.proc == Requesting(InMessage(1, p)) && c.mappings == [];
  }

  // ---------------------------------------------------------------- the answers a connection reads

  /** Request number `g` came from connection `c` on this socket, and not from an earlier connection. */
  predicate Own(h: History, c: Client, socket: int, g: nat) {
    g < |h.issued| && g < |h.froms| && h.issued[g].socket == socket && c.since <= h.froms[g]
  }

  /** No request of an earlier connection is outstanding under this socket number. */
  predicate OwnPending(h: History, c: Client, socket: int) {
    forall i :: 0 <= i < |h.gens| ==>
      h.gens[i] < |h.issued| && (h.issued[h.gens[i]].socket == socket ==> Own(h, c, socket, h.gens[i]))
  }

  /** If delivery `i` went to this connection, it answers a request of its own. */
  predicate OwnAt(h: History, c: Client, socket: int, i: nat)
    requires i < |h.delivered| == |h.answers|
  {
    h.delivered[i].socket == socket && c.base <= |For(socket, h.delivered[..i])| ==> Own(h, c, socket, h.answers[i].gen)
  }

  /** All that was delivered since the connection was accepted answers its own requests. */
  predicate OwnAnswers(h: History, c: Client, socket: int) {
    |h.answers| == |h.delivered| && forall i :: 0 <= i < |h.delivered| ==> OwnAt(h, c, socket, i)
  }

  predicate IsFrom(h: History, k: nat, socket: int)
    requires k < |h.froms|
  {
    h.froms[k] < |h.arrived| && h.arrived[h.froms[k]].socket == socket
  }

  /** No request of an earlier connection is in its queue or in progress. */
  predicate OwnQueue(h: History, c: Client, socket: int) {
    && (forall p :: h.taken <= p < |h.arrived| && h.arrived[p].socket == socket ==> c.since <= p)
    && (forall k :: |h.issued| <= k < |h.froms| && IsFrom(h, k, socket) ==> c.since <= h.froms[k])
  }

  predicate OwnInv(s: Sys, socket: int) {
    && socket in s.clients && s.clients[socket].inherited == []
    && OwnQueue(s.h, s.clients[socket], socket)
    && OwnPending(s.h, s.clients[socket], socket)
    && OwnAnswers(s.h, s.clients[socket], socket)
  }

  /** Nothing of an earlier connection on this socket is left in the multiplexer. */
  predicate Clean(s: Sys, socket: int) {
    && (forall i :: 0 <= i < |s.rIn| ==> s.rIn[i].socket != socket)
    && (s.proc.Requesting? ==> s.proc.request.socket != socket)
    && (forall i :: 0 <= i < |s.mappings| ==> s.mappings[i].socket != socket)
    && (forall i :: 0 <= i < |s.wIn| ==> s.wIn[i].socket != socket)
  }

  predicate KeepsOpen(step: Step, socket: int) {
    step != Close(socket)
  }

  /** Fewer messages stand before one for this socket than there are in all. */
  lemma {:induction false} ForBefore(socket: int, ms: seq<InMessage>, i: nat)
    requires i <= |ms|
    ensures |For(socket, ms[..i])| <= |For(socket, ms)|
    ensures i < |ms| && ms[i].socket == socket ==> |For(socket, ms[..i])| < |For(socket, ms)|
    decreases |ms|
  {
    if i < |ms| {
      var n := |ms| - 1;
      ForBefore(socket, ms[..n], i);
      assert ms[..n][..i] == ms[..i];
    } else {
      assert ms[..i] == ms;
    }
  }

  /** Requests keep their numbers and where they came from. */
  predicate Further(h: History, g: History) {
    h.issued <= g.issued && h.froms <= g.froms && h.arrived <= g.arrived
  }

  lemma OwnGrows(h: History, g: History, c: Client, d: Client, socket: int, k: nat)
    requires Own(h, c, socket, k) && d.since == c.since && Further(h, g)
    ensures Own(g, d, socket, k)
  {
  }

  /** The clients' marks are all that matters, and no step changes them while the connection stays open. */
  lemma MarksStay(s: Sys, step: Step, socket: int)
    requires socket in s.clients && KeepsOpen(step, socket)
    ensures var t := Next(s, step);
            && socket in t.clients && SameMarks(s.clients[socket], t.clients[socket])
            && t.clients[socket].since == s.clients[socket].since
  {
    hide Keep, KeepGens, HitGens, Hit, DecodedOutput, DecodedInput, AnsweredAll, Answers, Parse, Tagged, For, FirstFor,
      Forwarded, NextId, LinkReceive, LinkLoad, LinkSend;
  }

  // ---------------------------------------------------------------- a clean start

  lemma CleanAccept(s: Sys, socket: int)
    requires Inv(s) && socket > 0 && socket !in s.clients && Clean(s, socket)
    ensures OwnInv(Next(s, Accept(socket)), socket)
  {
    hide AnswersInv, RepliesInv, LinksInv, FlowInv, OriginInv, For, DecodedInput, IdOf, Forwarded, Own;
    var t := Next(s, Accept(socket));
    assert t == DoAccept(s, socket);
    var c := t.clients[socket];
    ForNone(socket, s.wIn);
    CleanQueue(s, c, socket);
    AnswersOf(s);
    CleanAnswers(s.h, c, socket);
    forall i | 0 <= i < |s.h.gens| ensures s.h.gens[i] < |s.h.issued| && s.h.issued[s.h.gens[i]].socket != socket {
      assert s.mappings[i] == MappingOf(s.h.issued, s.h.gens[i]);
    }
  }

  lemma CleanQueue(s: Sys, c: Client, socket: int)
    requires SourcesInv(s) && Clean(s, socket)
    ensures OwnQueue(s.h, c, socket)
  {
    forall p | s.h.taken <= p < |s.h.arrived| ensures s.h.arrived[p].socket != socket {
      assert s.rIn[p - s.h.taken] == s.h.arrived[p];
    }
  }

  lemma CleanAnswers(h: History, c: Client, socket: int)
    requires AnswersInv(h) && c.base == |For(socket, h.delivered)|
    ensures OwnAnswers(h, c, socket)
  {
    hide For, AnswerOk, Own;
    forall i | 0 <= i < |h.delivered| ensures OwnAt(h, c, socket, i) {
      ForBefore(socket, h.delivered, i);
    }
  }

  // ---------------------------------------------------------------- steps

  /** New arrivals on the socket of a live connection are its own, and others only move on. */
  lemma QueueStep(s: Sys, step: Step, c: Client, socket: int)
    requires SourcesInv(s) && OwnQueue(s.h, c, socket) && c.since <= |s.h.arrived|
    ensures OwnQueue(Next(s, step).h, c, socket)
  {
    hide For, Keep, KeepGens, HitGens, Hit, DecodedOutput, DecodedInput, AnsweredAll, Answers, Parse, Tagged, FirstFor,
      Forwarded, NextId, LinkReceive, LinkLoad, LinkSend, Increasing;
  }

  lemma PendingMapped(s: Sys, socket: int)
    requires SourcesInv(s) && s.proc.Requesting? && socket in s.clients
    requires OwnQueue(s.h, s.clients[socket], socket) && OwnPending(s.h, s.clients[socket], socket)
    requires |s.h.gens| == |s.mappings|
    ensures OwnPending(Next(s, MapRequest).h, s.clients[socket], socket)
  {
    hide Own, DecodedInput, NextId, Forwarded, Increasing;
    var g, c, n := Next(s, MapRequest).h, s.clients[socket], |s.h.issued|;
    assert Further(s.h, g);
    forall i | 0 <= i < |g.gens|
      ensures g.gens[i] < |g.issued| && (g.issued[g.gens[i]].socket == socket ==> Own(g, c, socket, g.gens[i]))
    {
      if i < |s.h.gens| {
        assert g.gens[i] == s.h.gens[i] < n;
        if g.issued[g.gens[i]].socket == socket { OwnGrows(s.h, g, c, c, socket, g.gens[i]); }
      } else if s.proc.request.socket == socket {
        OwnLast(s, g, c, socket);
      }
    }
  }

  lemma OwnLast(s: Sys, g: History, c: Client, socket: int)
    requires SourcesInv(s) && s.proc.Requesting? && OwnQueue(s.h, c, socket) && s.proc.request.socket == socket
    requires g.issued == s.h.issued + [s.proc.request] && g.froms == s.h.froms
    ensures Own(g, c, socket, |s.h.issued|)
  {
  }

  lemma PendingPart(h: History, g: History, c: Client, d: Client, socket: int)
    requires OwnPending(h, c, socket) && d.since == c.since && Further(h, g)
    requires forall i :: 0 <= i < |g.gens| ==> g.gens[i] in h.gens
    ensures OwnPending(g, d, socket)
  {
    forall i | 0 <= i < |g.gens|
      ensures g.gens[i] < |g.issued| && (g.issued[g.gens[i]].socket == socket ==> Own(g, d, socket, g.gens[i]))
    {
      var j :| 0 <= j < |h.gens| && h.gens[j] == g.gens[i];
    }
  }

  /** The same answers and deliveries, perhaps more requests. */
  lemma AnswersStay(h: History, g: History, c: Client, d: Client, socket: int)
    requires OwnAnswers(h, c, socket) && SameMarks(c, d) && d.since == c.since && Further(h, g)
    requires g.answers == h.answers && g.delivered == h.delivered
    ensures OwnAnswers(g, d, socket)
  {
    hide For, Own, Further;
    forall i | 0 <= i < |g.delivered| ensures OwnAt(g, d, socket, i) {
      assert OwnAt(h, c, socket, i);
      if g.delivered[i].socket == socket && d.base <= |For(socket, g.delivered[..i])| {
        OwnGrows(h, g, c, d, socket, g.answers[i].gen);
      }
    }
  }

  /**
   * New deliveries keep the answers a connection's own exactly if each of them for its socket answers an own request.
   */
  lemma AnswersMore(h: History, g: History, c: Client, socket: int, more: seq<nat>, out: seq<InMessage>)
    requires OwnAnswers(h, c, socket) && c.base <= |For(socket, h.delivered)|
    requires Routed(h, g, more, out)
    ensures |out| == |more|
    ensures OwnAnswers(g, c, socket) <==>
            forall j :: 0 <= j < |more| && out[j].socket == socket ==> Own(h, c, socket, more[j])
  {
    hide OwnAt, For, Own;
    var n := |h.delivered|;
    forall i | 0 <= i < n ensures OwnAt(g, c, socket, i) == OwnAt(h, c, socket, i) {
      OldAt(h, g, c, socket, more, out, i);
    }
    forall j | 0 <= j < |more|
      ensures OwnAt(g, c, socket, n + j) <==> (out[j].socket == socket ==> Own(h, c, socket, more[j])) {
      NewAt(h, g, c, socket, more, out, j);
    }
    if forall j :: 0 <= j < |more| && out[j].socket == socket ==> Own(h, c, socket, more[j]) {
      forall i | 0 <= i < |g.delivered| ensures OwnAt(g, c, socket, i) {
        if i < n {
          assert OwnAt(h, c, socket, i);
        } else {
          var j := i - n;
          assert OwnAt(g, c, socket, n + j) <==> (out[j].socket == socket ==> Own(h, c, socket, more[j]));
        }
      }
    } else {
      var j :| 0 <= j < |more| && out[j].socket == socket && !Own(h, c, socket, more[j]);
      assert !OwnAt(g, c, socket, n + j);
    }
  }

  lemma OldAt(h: History, g: History, c: Client, socket: int, more: seq<nat>, out: seq<InMessage>, i: nat)
    requires Routed(h, g, more, out) && i < |h.delivered| == |h.answers|
    ensures OwnAt(g, c, socket, i) == OwnAt(h, c, socket, i)
  {
    hide For, Own;
    assert g.delivered[..i] == h.delivered[..i];
    SameOwn(h, g, c, socket, h.answers[i].gen);
  }

  lemma NewAt(h: History, g: History, c: Client, socket: int, more: seq<nat>, out: seq<InMessage>, j: nat)
    requires Routed(h, g, more, out) && j < |more| && |h.delivered| == |h.answers|
    requires c.base <= |For(socket, h.delivered)|
    ensures OwnAt(g, c, socket, |h.delivered| + j) <==> (out[j].socket == socket ==> Own(h, c, socket, more[j]))
  {
    hide For, Own;
    var n := |h.delivered|;
    var before := g.delivered[..n + j];
    ForBefore(socket, before, n);
    assert before[..n] == h.delivered;
    SameOwn(h, g, c, socket, more[j]);
  }

  lemma SameOwn(h: History, g: History, c: Client, socket: int, k: nat)
    requires g.froms == h.froms && g.issued == h.issued
    ensures Own(g, c, socket, k) == Own(h, c, socket, k)
  {
  }

  lemma {:induction false} HitGensAre(gens: seq<nat>, ms: seq<Mapping>, k: Key)
    requires |gens| == |ms|
    ensures forall g :: g in HitGens(gens, ms, k) <==> exists i :: 0 <= i < |ms| && gens[i] == g && Hits(ms[i], k)
    decreases |ms|
  {
    hide Hits;
    if ms != [] {
      var n := |ms| - 1;
      HitGensAre(gens[..n], ms[..n], k);
      forall g ensures g in HitGens(gens, ms, k) <==> exists i :: 0 <= i < |ms| && gens[i] == g && Hits(ms[i], k) {
        if i :| 0 <= i < n && gens[i] == g && Hits(ms[i], k) {
          assert gens[..n][i] == g && Hits(ms[..n][i], k);
        }
        if g in HitGens(gens[..n], ms[..n], k) {
          var i :| 0 <= i < n && gens[..n][i] == g && Hits(ms[..n][i], k);
          assert gens[i] == g && Hits(ms[i], k);
        }
      }
    }
  }

  /**
   * The reply that is being routed carries the id of an outstanding request that an earlier connection on this socket
   * made.
   */
  predicate ForeignReply(s: Sys, step: Step, socket: int)
    requires socket in s.clients
  {
    && step.DeliverReply? && s.proc.Replying?
    && !forall i :: 0 <= i < |s.h.gens| && s.h.gens[i] < |s.h.issued| && s.h.issued[s.h.gens[i]].socket == socket
                    && IdOf(s.h.gens[i]) == Unsigned64(DecodedOutput(s.proc.reply).invokeid) ==>
         Own(s.h, s.clients[socket], socket, s.h.gens[i])
  }

  /** `more` requests were answered with the deliveries `out`. */
  predicate Routed(h: History, g: History, more: seq<nat>, out: seq<InMessage>) {
    && g.froms == h.froms && g.issued == h.issued && |out| == |more|
    && |g.answers| == |h.answers| + |more| && g.delivered == h.delivered + out
    && (forall i :: 0 <= i < |h.answers| ==> g.answers[i] == h.answers[i])
    && (forall j :: 0 <= j < |more| ==> g.answers[|h.answers| + j].gen == more[j])
  }

  predicate RoutedTo(h: History, more: seq<nat>, out: seq<InMessage>) {
    |out| == |more| && forall j :: 0 <= j < |more| ==> more[j] < |h.issued| && out[j].socket == h.issued[more[j]].socket
  }

  /** What a routed reply adds, and for whom. */
  lemma RoutedAnswers(s: Sys) returns (out: seq<InMessage>)
    requires IdsInv(s) && s.proc.Replying?
    ensures var k := ById(Unsigned64(DecodedOutput(s.proc.reply).invokeid));
            var t := Next(s, DeliverReply);
            && t.clients == s.clients && |s.h.gens| == |s.mappings| && t.h.gens == KeepGens(s.h.gens, s.mappings, k)
            && Routed(s.h, t.h, HitGens(s.h.gens, s.mappings, k), out)
            && RoutedTo(s.h, HitGens(s.h.gens, s.mappings, k), out)
  {
    hide Keep, KeepGens, Hit, HitGens, DecodedOutput, DecodedInput, IdOf, Answered, Next, AnsweredAll, Routed;
    var reply := DecodedOutput(s.proc.reply);
    var k := ById(Unsigned64(reply.invokeid));
    out := AnsweredAll(Hit(s.mappings, k), reply);
    SameLength(s);
    RoutedHistory(s);
    forall j | 0 <= j < |out|
      ensures var g := HitGens(s.h.gens, s.mappings, k)[j];
              g < |s.h.issued| && out[j].socket == s.h.issued[g].socket
    {
      HitIs(s, k, j);
      AnsweredSocket(Hit(s.mappings, k)[j], reply);
    }
  }

  lemma RoutedHistory(s: Sys)
    requires |s.h.gens| == |s.mappings| && s.proc.Replying?
    ensures var reply := DecodedOutput(s.proc.reply);
            var k := ById(Unsigned64(reply.invokeid));
            var t := Next(s, DeliverReply);
            && t.clients == s.clients && t.h.gens == KeepGens(s.h.gens, s.mappings, k)
            && Routed(s.h, t.h, HitGens(s.h.gens, s.mappings, k), AnsweredAll(Hit(s.mappings, k), reply))
  {
    hide Keep, KeepGens, Hit, HitGens, DecodedOutput, AnsweredAll, Answers, Routed;
    var reply := DecodedOutput(s.proc.reply);
    var k := ById(Unsigned64(reply.invokeid));
    var t := Next(s, DeliverReply);
    assert t == DoDeliverReply(s);
    RoutedMore(s.h, t.h, HitGens(s.h.gens, s.mappings, k), AnsweredAll(Hit(s.mappings, k), reply), s.proc.reply,
      |s.h.routes|);
  }

  lemma RoutedMore(h: History, g: History, more: seq<nat>, out: seq<InMessage>, reply: Pdu, turn: nat)
    requires g.froms == h.froms && g.issued == h.issued && |out| == |more|
    requires g.answers == h.answers + Answers(more, reply, turn) && g.delivered == h.delivered + out
    ensures Routed(h, g, more, out)
  {
  }

  lemma AnsweredSocket(m: Mapping, reply: Output)
    requires OutputValid(reply)
    ensures Answered(m, reply).socket == m.socket
  {
  }

  /**
   * What a connection is delivered stays its own at every step but one: the routing of a reply to a request
   * that an earlier connection on its socket made.
   */
  lemma OwnAnswersStep(s: Sys, step: Step, socket: int)
    requires Inv(s) && socket in s.clients && KeepsOpen(step, socket) && OwnAnswers(s.h, s.clients[socket], socket)
    ensures socket in Next(s, step).clients
    ensures OwnAnswers(Next(s, step).h, Next(s, step).clients[socket], socket) <==> !ForeignReply(s, step, socket)
  {
    hide Inv, OwnAnswers, Own, Next, IdsInv, DecodedOutput, IdOf;
    MarksStay(s, step, socket);
    if step.DeliverReply? && s.proc.Replying? {
      RoutedOwn(s, socket);
    } else {
      FurtherStep(s, step);
      OtherHistory(s, step);
      AnswersStay(s.h, Next(s, step).h, s.clients[socket], Next(s, step).clients[socket], socket);
    }
  }

  lemma OtherHistory(s: Sys, step: Step)
    requires !(step.DeliverReply? && s.proc.Replying?)
    ensures Next(s, step).h.answers == s.h.answers && Next(s, step).h.delivered == s.h.delivered
  {
    hide Keep, KeepGens, HitGens, Hit, DecodedOutput, DecodedInput, AnsweredAll, Answers, Parse, Tagged, For, FirstFor,
      Forwarded, NextId, LinkReceive, LinkLoad, LinkSend, Unread;
  }

  lemma RoutedOwn(s: Sys, socket: int)
    requires Inv(s) && socket in s.clients && s.proc.Replying? && OwnAnswers(s.h, s.clients[socket], socket)
    ensures Next(s, DeliverReply).clients == s.clients
    ensures OwnAnswers(Next(s, DeliverReply).h, s.clients[socket], socket) <==> !ForeignReply(s, DeliverReply, socket)
  {
    IdsOf(s);
    Origin(s, socket);
    var c := s.clients[socket];
    hide *;
    var out := RoutedAnswers(s);
    var more := HitGens(s.h.gens, s.mappings, ById(Unsigned64(DecodedOutput(s.proc.reply).invokeid)));
    AnswersMore(s.h, Next(s, DeliverReply).h, c, socket, more, out);
    ForeignHits(s, socket, more);
    RoutedSockets(s.h, more, out);
  }

  lemma RoutedSockets(h: History, more: seq<nat>, out: seq<InMessage>)
    requires RoutedTo(h, more, out)
    ensures |out| == |more|
    ensures forall j :: 0 <= j < |more| ==> more[j] < |h.issued| && out[j].socket == h.issued[more[j]].socket
  {
  }

  lemma ForeignHits(s: Sys, socket: int, more: seq<nat>)
    requires IdsInv(s) && socket in s.clients && s.proc.Replying?
    requires more == HitGens(s.h.gens, s.mappings, ById(Unsigned64(DecodedOutput(s.proc.reply).invokeid)))
    ensures forall j :: 0 <= j < |more| ==> more[j] < |s.h.issued|
    ensures ForeignReply(s, DeliverReply, socket) <==>
            !forall j :: 0 <= j < |more| && s.h.issued[more[j]].socket == socket ==>
              Own(s.h, s.clients[socket], socket, more[j])
  {
    hide HitGens, Own, DecodedOutput, DecodedInput, IdOf;
    var k := ById(Unsigned64(DecodedOutput(s.proc.reply).invokeid));
    HitGensAre(s.h.gens, s.mappings, k);
    forall i | 0 <= i < |s.h.gens| ensures Hits(s.mappings[i], k) <==> IdOf(s.h.gens[i]) == k.id {
      assert s.mappings[i] == MappingOf(s.h.issued, s.h.gens[i]);
    }
    forall j | 0 <= j < |more|
      ensures exists i :: 0 <= i < |s.h.gens| && s.h.gens[i] == more[j] && Hits(s.mappings[i], k) {
      assert more[j] in more;
    }
    forall i | 0 <= i < |s.h.gens| && Hits(s.mappings[i], k) ensures s.h.gens[i] in more {
    }
  }

  // ---------------------------------------------------------------- every run of a connection

  /** A connection with nothing foreign pending stays that way as long as it is open. */
  lemma OwnStep(s: Sys, step: Step, socket: int)
    requires Inv(s) && OwnInv(s, socket) && KeepsOpen(step, socket)
    ensures OwnInv(Next(s, step), socket)
  {
    var c, t := s.clients[socket], Next(s, step);
    hide Inv, OwnAnswers, OwnPending, OwnQueue, Own, Next, IdsInv;
    MarksStay(s, step, socket);
    var d := t.clients[socket];
    NoForeignReply(s, step, socket);
    OwnAnswersStep(s, step, socket);
    IdsOf(s);
    SourcesOf(s, socket);
    QueueStep(s, step, c, socket);
    OwnQueueSince(t.h, c, d, socket);
    if step.MapRequest? && s.proc.Requesting? {
      SameLength(s);
      PendingMapped(s, socket);
      PendingSince(t.h, c, d, socket);
    } else {
      FurtherStep(s, step);
      FewerGens(s, step);
      PendingPart(s.h, t.h, c, d, socket);
    }
  }

  lemma SourcesOf(s: Sys, socket: int)
    requires Inv(s)
    ensures SourcesInv(s) && (socket in s.clients ==> s.clients[socket].since <= |s.h.arrived|)
  {
    hide For, Within, IdsInv, SourcesInv, ForwardsInv, AnswersInv, RepliesInv, LinksInv, OriginInv;
    assert socket in s.clients ==> ClientFlow(s, socket);
  }

  lemma OwnQueueSince(h: History, c: Client, d: Client, socket: int)
    requires OwnQueue(h, c, socket) && d.since == c.since
    ensures OwnQueue(h, d, socket)
  {
  }

  lemma PendingSince(h: History, c: Client, d: Client, socket: int)
    requires OwnPending(h, c, socket) && d.since == c.since
    ensures OwnPending(h, d, socket)
  {
  }

  lemma NoForeignReply(s: Sys, step: Step, socket: int)
    requires socket in s.clients && OwnPending(s.h, s.clients[socket], socket)
    ensures !ForeignReply(s, step, socket)
  {
    hide Own;
  }

  lemma FurtherStep(s: Sys, step: Step)
    ensures Further(s.h, Next(s, step).h)
  {
    hide Keep, KeepGens, HitGens, Hit, DecodedOutput, DecodedInput, AnsweredAll, Answers, Parse, Tagged, For, FirstFor,
      Forwarded, NextId, LinkReceive, LinkLoad, LinkSend, Unread;
  }

  lemma FewerGens(s: Sys, step: Step)
    requires IdsInv(s) && !(step.MapRequest? && s.proc.Requesting?)
    ensures forall i :: 0 <= i < |Next(s, step).h.gens| ==> Next(s, step).h.gens[i] in s.h.gens
  {
    hide Keep, KeepGens, HitGens, Hit, DecodedOutput, DecodedInput, AnsweredAll, Answers, Parse, Tagged, For, FirstFor,
      Forwarded, NextId, IdOf, LinkReceive, LinkLoad, LinkSend, Unread, Tracks;
    SameLength(s);
    match step {
      case Close(socket) => SplitOf(s, BySockets({socket}));
      case ClearMappings(socket) => SplitOf(s, BySockets({socket}));
      case DeliverReply =>
        if s.proc.Replying? { SplitOf(s, ById(Unsigned64(DecodedOutput(s.proc.reply).invokeid))); }
      case _ =>
    }
  }

  /**
   * A connection that is accepted when nothing of its socket number is left in the multiplexer has nothing
   * foreign pending and is delivered nothing foreign, however the run goes on while it is open.
   */
  lemma {:induction false} OwnThroughout(s: Sys, socket: int, steps: seq<Step>)
    requires Inv(s) && socket > 0 && socket !in s.clients && Clean(s, socket)
    requires forall i :: 0 <= i < |steps| ==> KeepsOpen(steps[i], socket)
    ensures var t := Run(Next(s, Accept(socket)), steps);
            Inv(t) && OwnInv(t, socket)
    decreases |steps|
  {
    hide Inv, OwnInv, Next, Clean, KeepsOpen;
    if steps == [] {
      InvStep(s, Accept(socket));
      CleanAccept(s, socket);
    } else {
      var n := |steps| - 1;
      OwnThroughout(s, socket, steps[..n]);
      var t := Run(Next(s, Accept(socket)), steps[..n]);
      InvStep(t, steps[n]);
      OwnStep(t, steps[n], socket);
    }
  }

  /** The state after `n` of the steps that follow the accepting of the connection. */
  function Later(s: Sys, socket: int, steps: seq<Step>, n: nat): Sys
    requires n <= |steps|
  {
    Run(Next(s, Accept(socket)), steps[..n])
  }

  ghost predicate OwnSoFar(s: Sys, socket: int) {
    Inv(s) && socket in s.clients && OwnAnswers(s.h, s.clients[socket], socket)
  }

  ghost predicate NotForeign(s: Sys, step: Step, socket: int) {
    socket in s.clients && !ForeignReply(s, step, socket)
  }

  /**
   * Over the whole life of any connection: what is delivered to it stays its own exactly as long as no reply to
   * a request of an earlier connection on its socket is routed.
   */
  lemma {:induction false} OwnAnswersThroughout(s: Sys, socket: int, steps: seq<Step>)
    requires Inv(s) && socket > 0 && socket !in s.clients
    requires forall i :: 0 <= i < |steps| ==> KeepsOpen(steps[i], socket)
    ensures (forall n :: 0 <= n <= |steps| ==> OwnSoFar(Later(s, socket, steps, n), socket)) <==>
            (forall n :: 0 <= n < |steps| ==> NotForeign(Later(s, socket, steps, n), steps[n], socket))
    decreases |steps|
  {
    hide OwnSoFar, NotForeign, Later, KeepsOpen, Inv;
    if steps == [] {
      AcceptedOwn(s, socket);
    } else {
      var m := |steps| - 1;
      var init := steps[..m];
      OwnAnswersThroughout(s, socket, init);
      forall n | 0 <= n <= m ensures Later(s, socket, init, n) == Later(s, socket, steps, n) {
        SamePrefix(s, socket, steps, m, n);
      }
      var t := Later(s, socket, steps, m);
      LaterNext(s, socket, steps);
      if OwnSoFar(t, socket) {
        SoFarStep(t, steps[m], socket);
      }
    }
  }

  /** All that a connection may expect to read answers its own requests. */
  ghost predicate OwnGiven(s: Sys, socket: int) {
    OwnSoFar(s, socket) && s.clients[socket].inherited == []
  }

  /**
   * What already waits for a socket when a connection on it is accepted answers none of its requests: no answer
   * that was delivered before does.
   */
  lemma NothingOwnYet(s: Sys, socket: int)
    requires Inv(s) && socket > 0 && socket !in s.clients
    ensures var t := Next(s, Accept(socket));
            && socket in t.clients && t.h == s.h && t.clients[socket].inherited == For(socket, s.wIn)
            && forall i :: 0 <= i < |s.h.answers| ==> !Own(t.h, t.clients[socket], socket, s.h.answers[i].gen)
  {
    hide For, Inv, IdsInv;
    IdsOf(s);
    SameLength(s);
    SourcesOf(s, socket);
    AnswersOf(s);
    hide AnswersInv;
    var t := Next(s, Accept(socket));
    assert t == DoAccept(s, socket);
    forall i | 0 <= i < |s.h.answers| ensures !Own(t.h, t.clients[socket], socket, s.h.answers[i].gen) {
      if s.h.answers[i].gen < |s.h.froms| {
        assert s.h.froms[s.h.answers[i].gen] < s.h.taken;
      }
    }
  }

  /**
   * Over the whole life of any connection: all that it may expect to read answers its own requests exactly if
   * nothing waited for its socket when it was accepted, and as long as no reply to a request of an earlier
   * connection on its socket is routed.
   */
  lemma OwnGivenThroughout(s: Sys, socket: int, steps: seq<Step>)
    requires Inv(s) && socket > 0 && socket !in s.clients
    requires forall i :: 0 <= i < |steps| ==> KeepsOpen(steps[i], socket)
    ensures (forall n :: 0 <= n <= |steps| ==> OwnGiven(Later(s, socket, steps, n), socket)) <==>
            (For(socket, s.wIn) == []
             && forall n :: 0 <= n < |steps| ==> NotForeign(Later(s, socket, steps, n), steps[n], socket))
  {
    hide OwnSoFar, NotForeign, Later, KeepsOpen, Inv, For;
    OwnAnswersThroughout(s, socket, steps);
    forall n | 0 <= n <= |steps|
      ensures socket in Later(s, socket, steps, n).clients
      ensures Later(s, socket, steps, n).clients[socket].inherited == For(socket, s.wIn)
    {
      InheritedStays(s, socket, steps, n);
    }
    if For(socket, s.wIn) != [] {
      assert !OwnGiven(Later(s, socket, steps, 0), socket);
    } else {
      assert forall n :: 0 <= n <= |steps| ==>
               (OwnGiven(Later(s, socket, steps, n), socket) <==> OwnSoFar(Later(s, socket, steps, n), socket));
    }
  }

  lemma {:induction false} InheritedStays(s: Sys, socket: int, steps: seq<Step>, n: nat)
    requires Inv(s) && socket > 0 && socket !in s.clients && n <= |steps|
    requires forall i :: 0 <= i < |steps| ==> KeepsOpen(steps[i], socket)
    ensures socket in Later(s, socket, steps, n).clients
    ensures Later(s, socket, steps, n).clients[socket].inherited == For(socket, s.wIn)
    decreases n
  {
    hide Inv, For, Next, KeepsOpen, Run;
    if n == 0 {
      NothingOwnYet(s, socket);
      RunNone(Next(s, Accept(socket)), steps);
    } else {
      InheritedStays(s, socket, steps, n - 1);
      SamePrefix(s, socket, steps, n, n - 1);
      LaterNext(s, socket, steps[..n]);
      SamePrefix(s, socket, steps, n, n);
      MarksStay(Later(s, socket, steps, n - 1), steps[n - 1], socket);
    }
  }

  lemma RunNone(s: Sys, steps: seq<Step>)
    ensures Run(s, steps[..0]) == s
  {
  }

  lemma AcceptedOwn(s: Sys, socket: int)
    requires Inv(s) && socket > 0 && socket !in s.clients
    ensures OwnSoFar(Later(s, socket, [], 0), socket)
  {
    hide Inv, For, OwnAnswers;
    InvStep(s, Accept(socket));
    IdsOf(s);
    SameLength(s);
    AnswersOf(s);
    var t := Next(s, Accept(socket));
    assert t == DoAccept(s, socket);
    CleanAnswers(s.h, t.clients[socket], socket);
  }

  lemma SamePrefix(s: Sys, socket: int, steps: seq<Step>, m: nat, n: nat)
    requires n <= m <= |steps|
    ensures Later(s, socket, steps[..m], n) == Later(s, socket, steps, n)
  {
    hide Run, Next;
    assert steps[..m][..n] == steps[..n];
  }

  lemma LaterNext(s: Sys, socket: int, steps: seq<Step>)
    requires steps != []
    ensures var m := |steps| - 1;
            Later(s, socket, steps, |steps|) == Next(Later(s, socket, steps, m), steps[m])
  {
    hide Next;
    assert steps[..|steps|] == steps;
  }

  lemma SoFarStep(s: Sys, step: Step, socket: int)
    requires OwnSoFar(s, socket) && KeepsOpen(step, socket)
    ensures OwnSoFar(Next(s, step), socket) <==> NotForeign(s, step, socket)
  {
    hide Inv, Next, OwnAnswers, ForeignReply, KeepsOpen;
    InvStep(s, step);
    OwnAnswersStep(s, step, socket);
  }

  /** Answer `a` is for the request that this connection received as its `n`-th. */
  ghost predicate AnswersNth(s: Sys, socket: int, p: Pdu, a: Answer, n: nat)
    requires socket in s.clients
  {
    var received := Parse(s.clients[socket].link.received).pdus;
    AnswersRequestOf(s, socket, p, a) && n < |received| && received[n] == s.h.issued[a.gen].pdu
  }

  ghost predicate AnswersOwnRequest(s: Sys, socket: int, p: Pdu, a: Answer)
    requires socket in s.clients
  {
    exists n :: AnswersNth(s, socket, p, a, n)
  }

  /**
   * So the PDUs that such a connection reads correspond, in order, to answers at increasing positions, each
   * the server's reply to a request that this very connection received, with the id of that request.
   */
  lemma ReadsOwnAnswers(s: Sys, socket: int) returns (ps: seq<nat>)
    requires OwnGiven(s, socket)
    ensures var got := Parse(s.clients[socket].link.sent).pdus;
            && Increasing(ps) && |ps| == |got|
            && forall i :: 0 <= i < |got| ==>
               ps[i] < |s.h.answers| && AnswersOwnRequest(s, socket, got[i], s.h.answers[ps[i]])
  {
    hide Inv, OwnAnswers, For, Parse, PlaceOf, Increasing, AnswersOwnRequest;
    var qs := PositionsRead(s, socket);
    ps := PlacesOf(socket, s.h.delivered, qs);
    forall i | 0 <= i < |qs|
      ensures ps[i] < |s.h.answers|
      ensures AnswersOwnRequest(s, socket, Parse(s.clients[socket].link.sent).pdus[i], s.h.answers[ps[i]])
    {
      OneRead(s, socket, qs[i]);
    }
  }

  /** Which of the deliveries for its socket a connection reads that inherited nothing. */
  lemma PositionsRead(s: Sys, socket: int) returns (qs: seq<nat>)
    requires Inv(s) && socket in s.clients && s.clients[socket].inherited == []
    ensures var c, all := s.clients[socket], For(socket, s.h.delivered);
            var got := Parse(c.link.sent).pdus;
            && Increasing(qs) && |qs| == |got|
            && forall i :: 0 <= i < |qs| ==> c.base <= qs[i] < |all| && got[i] == all[qs[i]]
  {
    hide Inv, For, Parse, Owed, Within, Increasing;
    ClientReads(s, socket);
    qs := PlacesSince(Parse(s.clients[socket].link.sent).pdus, s.clients[socket], For(socket, s.h.delivered));
  }

  lemma PlacesSince(got: seq<Pdu>, c: Client, all: seq<Pdu>) returns (qs: seq<nat>)
    requires c.inherited == [] && c.base <= |all| && Within(got, Owed(c, all))
    ensures Increasing(qs) && |qs| == |got| && forall i :: 0 <= i < |qs| ==>
            c.base <= qs[i] < |all| && got[i] == all[qs[i]]
  {
    hide Within, Increasing;
    assert Owed(c, all) == all[c.base..];
    var at := WithinAt(got, all[c.base..]);
    qs := Shifted(at, c.base);
  }

  lemma Shifted(at: seq<nat>, base: nat) returns (qs: seq<nat>)
    requires Increasing(at)
    ensures Increasing(qs) && |qs| == |at| && forall i :: 0 <= i < |at| ==> qs[i] == base + at[i]
  {
    qs := seq(|at|, i requires 0 <= i < |at| => base + at[i]);
  }

  lemma PlacesOf(socket: int, ms: seq<InMessage>, qs: seq<nat>) returns (ps: seq<nat>)
    requires Increasing(qs) && forall i :: 0 <= i < |qs| ==> qs[i] < |For(socket, ms)|
    ensures Increasing(ps) && |ps| == |qs| && forall i :: 0 <= i < |qs| ==> ps[i] == PlaceOf(socket, ms, qs[i])
  {
    hide For, PlaceOf;
    ps := seq(|qs|, i requires 0 <= i < |qs| => PlaceOf(socket, ms, qs[i]));
    forall i, j | 0 <= i < j < |ps| ensures ps[i] < ps[j] {
      PlacesRise(socket, ms, qs[i], qs[j]);
    }
  }

  /** The message for this connection that has `q` others for its socket number before it. */
  lemma OneRead(s: Sys, socket: int, q: nat)
    requires Inv(s) && socket in s.clients && OwnAnswers(s.h, s.clients[socket], socket)
    requires s.clients[socket].base <= q < |For(socket, s.h.delivered)|
    ensures var d := PlaceOf(socket, s.h.delivered, q);
            d < |s.h.answers| && AnswersOwnRequest(s, socket, For(socket, s.h.delivered)[q], s.h.answers[d])
  {
    AnswersOf(s);
    hide Inv, OwnAnswers, AnswersInv, AnswersRequestOf, Own, Parse, For, PlaceOf;
    var d := PlaceOf(socket, s.h.delivered, q);
    PlaceCounts(socket, s.h.delivered, q);
    DeliveredAnswers(s, socket, For(socket, s.h.delivered)[q], d);
    OwnOf(s.h, s.clients[socket], socket, d);
    var n := ReceivedAs(s, socket, s.h.answers[d].gen);
    assert AnswersNth(s, socket, For(socket, s.h.delivered)[q], s.h.answers[d], n);
  }

  lemma OwnOf(h: History, c: Client, socket: int, d: nat)
    requires OwnAnswers(h, c, socket) && d < |h.delivered| && h.delivered[d].socket == socket
    requires c.base <= |For(socket, h.delivered[..d])|
    ensures Own(h, c, socket, h.answers[d].gen)
  {
    hide For, Own;
    assert OwnAt(h, c, socket, d);
  }

  /** An own request is among the PDUs this connection received. */
  lemma ReceivedAs(s: Sys, socket: int, g: nat) returns (n: nat)
    requires Inv(s) && socket in s.clients && Own(s.h, s.clients[socket], socket, g)
    ensures var received := Parse(s.clients[socket].link.received).pdus;
            n < |received| && received[n] == s.h.issued[g].pdu
  {
    hide Inv, Own, For, Parse;
    ReceivedQueue(s, socket, g);
    n := NthSince(socket, s.h.arrived, s.clients[socket].since, s.h.froms[g]);
  }

  lemma NthSince(socket: int, ms: seq<InMessage>, since: nat, p: nat) returns (n: nat)
    requires since <= p < |ms| && ms[p].socket == socket
    ensures n < |For(socket, ms[since..])| && For(socket, ms[since..])[n] == ms[p].pdu
  {
    hide For;
    var part, i: nat := ms[since..], p - since;
    Shift(ms, since, i);
    NthOf(socket, part, i);
    n := |For(socket, part[..i])|;
  }

  lemma Shift<T>(s: seq<T>, base: nat, i: nat)
    requires base + i < |s|
    ensures s[base..][i] == s[base + i]
  {
  }

  /** Where the message at position `i` stands among those for its socket. */
  lemma NthOf(socket: int, ms: seq<InMessage>, i: nat)
    requires i < |ms| && ms[i].socket == socket
    ensures var q := |For(socket, ms[..i])|;
            q < |For(socket, ms)| && For(socket, ms)[q] == ms[i].pdu
  {
    hide For;
    var rest := ms[i + 1..];
    ForConcat(socket, ms[..i] + [ms[i]], rest);
    ForConcat(socket, ms[..i], [ms[i]]);
    ForOne(socket, ms[i]);
    assert ms == ms[..i] + [ms[i]] + rest;
  }

  lemma ReceivedQueue(s: Sys, socket: int, g: nat)
    requires Inv(s) && socket in s.clients && Own(s.h, s.clients[socket], socket, g)
    ensures var c := s.clients[socket];
            && g < |s.h.issued| && g < |s.h.froms| && c.since <= s.h.froms[g] < |s.h.arrived|
            && s.h.arrived[s.h.froms[g]] == s.h.issued[g] && s.h.issued[g].socket == socket
            && Parse(c.link.received).pdus == For(socket, s.h.arrived[c.since..])
  {
    hide Parse, For, Within, IdsInv, RepliesInv, OriginInv, AnswersInv, ForwardsInv;
    assert ClientFlow(s, socket);
  }

  /** What every client reads whose socket number was free of leftovers when it was accepted, in any run after that. */
  lemma CleanConnectionReadsOwnAnswers(s: Sys, socket: int, steps: seq<Step>) returns (ps: seq<nat>)
    requires Reachable(s) && socket > 0 && socket !in s.clients && Clean(s, socket)
    requires forall i :: 0 <= i < |steps| ==> KeepsOpen(steps[i], socket)
    ensures var t := Run(Next(s, Accept(socket)), steps);
            && socket in t.clients
            && var got := Parse(t.clients[socket].link.sent).pdus;
               && Increasing(ps) && |ps| == |got|
               && forall i :: 0 <= i < |got| ==>
                  ps[i] < |t.h.answers| && AnswersOwnRequest(t, socket, got[i], t.h.answers[ps[i]])
  {
    hide Inv, OwnQueue, OwnPending, OwnAnswers, Parse, AnswersOwnRequest, Next, Run, Clean, Reachable;
    ReachableInv(s);
    OwnThroughout(s, socket, steps);
    ps := ReadsOwnAnswers(Run(Next(s, Accept(socket)), steps), socket);
  }

  // ---------------------------------------------------------------- when it was not clean

  /** One request of a closed connection is outstanding, and its socket number is in use again. */
  predicate Reused(s: Sys) {
    && !s.locked && 1 in s.clients && s.clients[1].link == FRESH_LINK && s.server.r == []
    && s.proc == Idle && s.rOut == [] && s.wIn == []
    && |s.mappings| == |s.h.gens| == |s.h.issued| == 1 && s.h.gens[0] == 0 && s.h.issued[0].socket == 1
  }

  /** A reply waits for a connection that has not sent anything. */
  predicate Waits(s: Sys) {
    && 1 in s.clients && s.clients[1].link == FRESH_LINK && |s.wIn| == 1 && s.wIn[0].socket == 1
       && Framable(s.wIn[0].pdu)
    && |s.h.gens| == |s.mappings|
  }

  /** The request waits, and its socket number is in use again. */
  predicate Waiting(s: Sys, p: Pdu) {
    && !s.locked && 1 in s.clients && s.clients[1].link == FRESH_LINK && s.server.r == []
    && s.proc == Idle && s.rIn == [InMessage(1, p)] && s.rOut == [] && s.wIn == []
    && s.mappings == [] && s.h.gens == [] && s.h.issued == []
  }

  lemma Reopened() returns (steps: seq<Step>)
    ensures Waiting(Run(INIT, steps), InputPdu(REQUEST))
  {
    hide Run, Next, Flooded, Tracked, Frame, InputPdu, Waiting;
    steps := Flood(0);
    var s := Run(INIT, steps);
    AlwaysTracked(steps);
    var frame := Frame(InputPdu(REQUEST));
    RunMore(steps, ReceiveClient(1, frame));
    RunMore(steps + [ReceiveClient(1, frame)], Close(1));
    RunMore(steps + [ReceiveClient(1, frame)] + [Close(1)], Accept(1));
    steps := steps + [ReceiveClient(1, frame)] + [Close(1)] + [Accept(1)];
    AcceptedAgain(s);
  }

  lemma AcceptedAgain(s: Sys)
    requires Flooded(s, 0) && Tracked(s)
    ensures Waiting(Next(Next(Next(s, ReceiveClient(1, Frame(InputPdu(REQUEST)))), Close(1)), Accept(1)),
            InputPdu(REQUEST))
  {
    hide Frame, InputPdu, Parse;
    var p := InputPdu(REQUEST);
    WholeFrame(p);
    var a := Next(s, ReceiveClient(1, Frame(p)));
    assert a.rIn == [InMessage(1, p)] && a.mappings == [];
    var b := Next(a, Close(1));
    assert b.rIn == a.rIn && b.mappings == [] && 1 !in b.clients && b.h.gens == [];
  }

  lemma ForwardedLate() returns (steps: seq<Step>)
    ensures Reused(Run(INIT, steps))
  {
    hide Run, Next, Waiting, Reused, InputPdu;
    steps := Reopened();
    var s := Run(INIT, steps);
    RunMore(steps, TakeRequest);
    RunMore(steps + [TakeRequest], MapRequest);
    RunMore(steps + [TakeRequest] + [MapRequest], ForwardRequest);
    steps := steps + [TakeRequest] + [MapRequest] + [ForwardRequest];
    MappedLate(s, InputPdu(REQUEST));
  }

  lemma MappedLate(s: Sys, p: Pdu)
    requires Waiting(s, p)
    ensures Reused(Next(Next(Next(s, TakeRequest), MapRequest), ForwardRequest))
  {
    hide DecodedInput, Forwarded, NextId;
    var d := Next(s, TakeRequest);
    assert d.proc == Requesting(InMessage(1, p)) && d.h.gens == [] && d.mappings == [];
    var e := Next(d, MapRequest);
    assert e.proc.Forwarding? && e.h.gens == [0] && e.h.issued == [InMessage(1, p)] && |e.mappings| == 1;
  }

  lemma RepliedLate() returns (steps: seq<Step>)
    ensures Waits(Run(INIT, steps))
  {
    hide Run, Next, Reused, Waits, Frame, OutputPdu, Inv, IdsInv;
    steps := ForwardedLate();
    var s := Run(INIT, steps);
    InvAlways(steps);
    IdsOf(s);
    var frame := Frame(OutputPdu(REPLY));
    RunMore(steps, ReceiveServer(frame));
    RunMore(steps + [ReceiveServer(frame)], TakeReply);
    RunMore(steps + [ReceiveServer(frame)] + [TakeReply], DeliverReply);
    steps := steps + [ReceiveServer(frame)] + [TakeReply] + [DeliverReply];
    ReplyTaken(s);
    StrangerWaits(Next(Next(s, ReceiveServer(frame)), TakeReply));
  }

  /** The reply to the late request is about to be routed. */
  predicate Routing(s: Sys) {
    && 1 in s.clients && s.clients[1].link == FRESH_LINK && s.wIn == [] && IdsInv(s)
    && s.proc == Replying(OutputPdu(REPLY))
    && |s.mappings| == |s.h.gens| == |s.h.issued| == 1 && s.h.gens[0] == 0 && s.h.issued[0].socket == 1
  }

  lemma ReplyTaken(s: Sys)
    requires Reused(s) && IdsInv(s)
    ensures Routing(Next(Next(s, ReceiveServer(Frame(OutputPdu(REPLY)))), TakeReply))
  {
    hide Frame, OutputPdu, DecodedInput, Tracks;
    ReplyComes(s, OutputPdu(REPLY));
  }

  lemma StrangerWaits(s: Sys)
    requires Routing(s)
    ensures Waits(Next(s, DeliverReply))
  {
    var reply := DecodedOutput(s.proc.reply);
    var m := s.mappings[0];
    FirstMapping(s);
    OutputPduRoundTrip(REPLY);
    IdOfReply();
    hide *;
    Delivery(s);
    OnlyHit(m, s.mappings);
    OneAnswer(m, REPLY);
    DeliverKeepsLength(s);
    WaitsFor(Next(s, DeliverReply), AnsweredAll([m], REPLY));
  }

  lemma IdOfReply()
    ensures Unsigned64(REPLY.invokeid) == 1 && OutputValid(REPLY)
  {
  }

  lemma OnlyHit(m: Mapping, ms: seq<Mapping>)
    requires |ms| == 1 && ms[0] == m && m.generated == 1
    ensures Hit(ms, ById(1)) == [m]
  {
    hide Hit;
    HitOne(ms, ById(1), 0);
  }

  lemma WaitsFor(t: Sys, out: seq<InMessage>)
    requires 1 in t.clients && t.clients[1].link == FRESH_LINK && |t.h.gens| == |t.mappings| && t.wIn == [] + out
    requires |out| == 1 && out[0].socket == 1 && Framable(out[0].pdu)
    ensures Waits(t)
  {
  }

  lemma FirstMapping(s: Sys)
    requires IdsInv(s) && |s.mappings| == |s.h.gens| == |s.h.issued| == 1 && s.h.gens[0] == 0
    ensures s.mappings[0].socket == s.h.issued[0].socket && s.mappings[0].generated == 1
  {
    hide DecodedInput;
    assert s.mappings[0] == MappingOf(s.h.issued, 0);
  }

  lemma OneAnswer(m: Mapping, reply: Output)
    requires OutputValid(reply)
    ensures var out := AnsweredAll([m], reply);
            |out| == 1 && out[0].socket == m.socket && Framable(out[0].pdu)
  {
    hide OutputPdu;
  }

  lemma DeliverKeepsLength(s: Sys)
    requires IdsInv(s) && s.proc.Replying?
    ensures |Next(s, DeliverReply).h.gens| == |Next(s, DeliverReply).mappings|
  {
    hide DecodedOutput, Keep, KeepGens, HitGens, Hit, AnsweredAll, Answers;
  }

  /**
   * A request that outlives its connection: once its socket number is in use again, the reply goes to the new
   * connection, which has not sent anything.
   */
  lemma AReplyReachesAStranger() returns (steps: seq<Step>)
    ensures var s := Run(INIT, steps);
            && Reachable(s) && 1 in s.clients
            && s.clients[1].link.received == [] && |Parse(s.clients[1].link.sent).pdus| == 1
  {
    hide Run, Next, Waits, Parse;
    steps := RepliedLate();
    var s := Run(INIT, steps);
    var n := StrangerReads(s);
    RunMore(steps, LoadClient(1));
    RunMore(steps + [LoadClient(1)], SendClient(1, n));
    steps := steps + [LoadClient(1)] + [SendClient(1, n)];
    assert Reachable(Run(INIT, steps));
  }

  lemma StrangerReads(s: Sys) returns (n: nat)
    requires Waits(s)
    ensures var t := Next(Next(s, LoadClient(1)), SendClient(1, n));
            && 1 in t.clients && t.clients[1].link.received == [] && |Parse(t.clients[1].link.sent).pdus| == 1
  {
    hide Frame, Parse, Next;
    var p := s.wIn[0].pdu;
    n := |Frame(p)|;
    MessageRead(s, p);
  }

  /**
   * Routing no foreign reply is not enough: a connection that has sent nothing reads what still waits for its
   * predecessor, although all that is delivered after it was accepted would be its own.
   */
  lemma AStrangerReadsWhatWaited() returns (steps: seq<Step>, later: seq<Step>)
    ensures var s := Run(INIT, steps);
            && Reachable(s) && 1 !in s.clients && |later| == 2
            && (forall n :: 0 <= n < |later| ==>
                  KeepsOpen(later[n], 1) && NotForeign(Later(s, 1, later, n), later[n], 1))
            && var t := Later(s, 1, later, |later|);
               1 in t.clients && t.clients[1].link.received == [] && |Parse(t.clients[1].link.sent).pdus| == 1
  {
    hide Run, Next, Waits, Parse;
    steps := RepliedLate();
    var s := Run(INIT, steps);
    RunMore(steps, Close(1));
    steps := steps + [Close(1)];
    assert Reachable(Run(INIT, steps));
    WaitsOn(s);
    var a := Next(Next(s, Close(1)), Accept(1));
    var n := StrangerReads(a);
    later := [LoadClient(1), SendClient(1, n)];
    TwoLater(Next(s, Close(1)), later);
    StillOpen(a);
  }

  /** A reply that waits outlives the connection. */
  lemma WaitsOn(s: Sys)
    requires Waits(s)
    ensures 1 !in Next(s, Close(1)).clients && Waits(Next(Next(s, Close(1)), Accept(1)))
  {
    hide For, Keep, KeepGens;
    var b := Next(s, Close(1));
    assert b == DoClose(s, 1);
  }

  lemma StillOpen(a: Sys)
    requires Waits(a)
    ensures 1 in a.clients && 1 in Next(a, LoadClient(1)).clients
  {
    hide Frame, FirstFor;
  }

  lemma TwoLater(s: Sys, later: seq<Step>)
    requires |later| == 2
    ensures var a := Next(s, Accept(1));
            && Later(s, 1, later, 0) == a && Later(s, 1, later, 1) == Next(a, later[0])
            && Later(s, 1, later, 2) == Next(Next(a, later[0]), later[1])
  {
    hide Next;
    var a := Next(s, Accept(1));
    assert later[..1][..0] == [] && later[..2][..1] == later[..1];
    assert Run(a, later[..1]) == Next(Run(a, []), later[0]);
    assert Run(a, later[..2]) == Next(Run(a, later[..1]), later[1]);
  }
}

/**
 * What a cleanup costs the clients that are still served while it goes on: it alone throws away requests and
 * replies, and it throws away exactly what waits in the two queues at the moment it empties them.
 */
module Cleanups {
  import opened Per
  import opened Messages
  import opened Pdus
  import opened Framing
  import opened Relay
  import opened MuxerSystem
  import opened MuxerInvariant
  import opened Transparency
  import opened Ownership

  // ---------------------------------------------------------------- requests

  /** Requests are lost at exactly one step, and those are the ones that wait. */
  lemma DiscardedStep(s: Sys, step: Step)
    requires |s.h.gens| == |s.mappings|
    ensures forall p: nat :: p in Next(s, step).h.discarded <==>
            p in s.h.discarded || (step.DrainRIn? && s.locked && s.h.taken <= p < |s.h.arrived|)
  {
    hide Keep, KeepGens, HitGens, Hit, DecodedOutput, DecodedInput, AnsweredAll, Answers, Parse, Tagged, For, FirstFor,
      Forwarded, NextId, LinkReceive, LinkLoad, LinkSend, Unread, Unrouted;
    UnreadIs(s.h);
  }

  lemma UnreadIs(h: History)
    ensures forall p :: p in Unread(h) <==> h.taken <= p < |h.arrived|
    ensures forall p :: p in Unrouted(h) <==> h.handled <= p < |h.replies|
  {
    forall p: nat ensures p in Unread(h) <==> h.taken <= p < |h.arrived| {
      assert IsUnread(h, p) == (h.taken <= p < |h.arrived|);
    }
    forall p: nat ensures p in Unrouted(h) <==> h.handled <= p < |h.replies| {
      assert IsUnrouted(h, p) == (h.handled <= p < |h.replies|);
    }
  }

  /** Replies of the server are lost at exactly one step, and those are the ones that wait. */
  lemma ThrownStep(s: Sys, step: Step)
    requires |s.h.gens| == |s.mappings|
    ensures forall p: nat :: p in Next(s, step).h.thrown <==>
            p in s.h.thrown || (step.DrainROut? && s.locked && s.h.handled <= p < |s.h.replies|)
  {
    hide Keep, KeepGens, HitGens, Hit, DecodedOutput, DecodedInput, AnsweredAll, Answers, Parse, Tagged, For, FirstFor,
      Forwarded, NextId, LinkReceive, LinkLoad, LinkSend, Unread, Unrouted;
    UnreadIs(s.h);
  }

  /** The streams of the server start over at exactly one step, and the queue for it is emptied at exactly one. */
  lemma BasesStep(s: Sys, step: Step)
    requires |s.h.gens| == |s.mappings|
    ensures Next(s, step).h.repliesBase ==
            if step.BeginCleanup? && !s.locked then |s.h.replies| else s.h.repliesBase
    ensures Next(s, step).h.forwardedBase ==
            if step.BeginCleanup? && !s.locked then s.h.forwardedBase + |s.server.loaded|
            else if step.DrainWOut? && s.locked then |s.h.forwarded| else s.h.forwardedBase
  {
    hide Keep, KeepGens, HitGens, Hit, DecodedOutput, DecodedInput, AnsweredAll, Answers, Parse, Tagged, For, FirstFor,
      Forwarded, NextId, LinkReceive, LinkLoad, LinkSend, Unread, Unrouted;
  }

  // ---------------------------------------------------------------- replies

  /** The queue of replies is emptied while one waits for this socket. */
  predicate Cuts(s: Sys, step: Step, socket: int) {
    step.DrainWIn? && Enabled(s, step) && For(socket, s.wIn) != []
  }

  lemma SameEnd<T>(a: seq<T>, b: seq<T>, x: seq<T>)
    ensures a + x == b + x <==> a == b
  {
    if a + x == b + x {
      assert (a + x)[..|a|] == a && (b + x)[..|b|] == b;
    }
  }

  lemma DeliverWhole(s: Sys, t: Sys, socket: int, out: seq<InMessage>)
    requires socket in s.clients && s.clients[socket].base <= |For(socket, s.h.delivered)|
    requires t.clients == s.clients && t.wIn == s.wIn + out && t.h.delivered == s.h.delivered + out
    ensures Whole(t, socket) <==> Whole(s, socket)
  {
    hide For, Owed;
    var c, all, more := s.clients[socket], For(socket, s.h.delivered), For(socket, out);
    ForConcat(socket, s.h.delivered, out);
    ForConcat(socket, s.wIn, out);
    OwedMore(c, all, For(socket, s.wIn), more);
    SameEnd(Owed(c, all), c.link.loaded + For(socket, s.wIn), more);
  }

  lemma DrainWhole(s: Sys, socket: int)
    requires socket in s.clients && ClientFlow(s, socket)
    ensures Whole(s.(wIn := []), socket) <==> Whole(s, socket) && For(socket, s.wIn) == []
  {
    hide For, Owed, Within;
    var c, all := s.clients[socket], For(socket, s.h.delivered);
    ForEmpty(socket);
    WithinLength(c.link.loaded + For(socket, s.wIn), Owed(c, all));
  }

  lemma LoadWhole(s: Sys, other: int, socket: int)
    requires other in s.clients && socket in s.clients && FirstFor(other, s.wIn) < |s.wIn|
    ensures socket in DoLoadClient(s, other).clients
    ensures Whole(DoLoadClient(s, other), socket) <==> Whole(s, socket)
  {
    hide For, FirstFor, DoLoadClient;
    LoadKeeps(s, other, socket);
    var c, d := s.clients[socket], DoLoadClient(s, other).clients[socket];
    assert d.base == d.(link := c.link).base && d.inherited == d.(link := c.link).inherited;
  }

  /** The same deliveries, and the same waits and was loaded for this client. */
  lemma SameWhole(s: Sys, t: Sys, socket: int)
    requires socket in s.clients && socket in t.clients && SameMarks(s.clients[socket], t.clients[socket])
    requires t.h.delivered == s.h.delivered && t.clients[socket].link.loaded == s.clients[socket].link.loaded
    requires For(socket, t.wIn) == For(socket, s.wIn)
    ensures Whole(t, socket) <==> Whole(s, socket)
  {
    hide For;
  }

  /**
   * A connection loses something that it may expect to read at exactly one kind of step: the queue of replies is
   * emptied while one waits for it. What was lost stays lost.
   */
  lemma WholeStep(s: Sys, step: Step, socket: int)
    requires Inv(s) && socket in s.clients && KeepsOpen(step, socket)
    ensures socket in Next(s, step).clients
    ensures Whole(Next(s, step), socket) <==> Whole(s, socket) && !Cuts(s, step, socket)
  {
    hide Inv, For, Whole, ClientFlow, Keep, KeepGens, Hit, HitGens, DecodedOutput, AnsweredAll, Answers, FirstFor,
      LinkLoad, SameMarks;
    FlowOf(s, socket);
    MarksStay(s, step, socket);
    if Enabled(s, step) {
      match step {
        case DeliverReply =>
          var reply := DecodedOutput(s.proc.reply);
          var out := AnsweredAll(Hit(s.mappings, ById(Unsigned64(reply.invokeid))), reply);
          DeliverWhole(s, Next(s, step), socket, out);
        case LoadClient(other) => LoadWhole(s, other, socket);
        case DrainWIn => DrainWhole(s, socket);
        case _ => OtherWhole(s, step, socket);
      }
    }
  }

  lemma FlowOf(s: Sys, socket: int)
    requires Inv(s) && socket in s.clients
    ensures ClientFlow(s, socket) && s.clients[socket].base <= |For(socket, s.h.delivered)|
  {
    hide For, Within, IdsInv, SourcesInv, ForwardsInv, AnswersInv, RepliesInv, LinksInv, OriginInv;
  }

  lemma OtherWhole(s: Sys, step: Step, socket: int)
    requires Enabled(s, step) && socket in s.clients && KeepsOpen(step, socket)
    requires !step.DeliverReply? && !step.LoadClient? && !step.DrainWIn?
    ensures socket in Next(s, step).clients
    ensures Whole(Next(s, step), socket) <==> Whole(s, socket)
  {
    hide For, Whole, Keep, KeepGens, Hit, HitGens, Parse, DecodedInput, Forwarded, NextId, Tagged, Unread;
    if step.Drop? { ForWithout(socket, s.wIn, step.i); }
    SameWhole(s, Next(s, step), socket);
  }

  /**
   * Over the life of any connection: nothing it may expect to read was lost exactly if the queue of replies was
   * never emptied while one waited for it.
   */
  lemma {:induction false} WholeExactly(s: Sys, socket: int, steps: seq<Step>)
    requires Inv(s) && socket > 0 && socket !in s.clients
    requires forall i :: 0 <= i < |steps| ==> KeepsOpen(steps[i], socket)
    ensures var t := Later(s, socket, steps, |steps|);
            Inv(t) && socket in t.clients
    ensures Whole(Later(s, socket, steps, |steps|), socket) <==>
            forall n :: 0 <= n < |steps| ==> !Cuts(Later(s, socket, steps, n), steps[n], socket)
    decreases |steps|
  {
    hide Inv, Whole, Cuts, Later, KeepsOpen, Next;
    if steps == [] {
      WholeAtFirst(s, socket);
    } else {
      var m := |steps| - 1;
      var init := steps[..m];
      WholeExactly(s, socket, init);
      forall n | 0 <= n <= m ensures Later(s, socket, init, n) == Later(s, socket, steps, n) {
        SamePrefix(s, socket, steps, m, n);
      }
      var t := Later(s, socket, steps, m);
      LaterNext(s, socket, steps);
      InvStep(t, steps[m]);
      WholeStep(t, steps[m], socket);
    }
  }

  lemma WholeAtFirst(s: Sys, socket: int)
    requires Inv(s) && socket > 0 && socket !in s.clients
    ensures var t := Later(s, socket, [], 0);
            Inv(t) && socket in t.clients && Whole(t, socket)
  {
    hide For, Inv;
    InvStep(s, Accept(socket));
    NothingOwnYet(s, socket);
    var all := For(socket, s.h.delivered);
    assert Next(s, Accept(socket)) == DoAccept(s, socket);
    assert all[|all|..] == [];
  }

  // ---------------------------------------------------------------- a run in which a reply is lost

  const SECOND_REPLY := Output(2, [0], [1])

  /** A client that nothing was ever queued for. */
  predicate Unserved(c: Client) {
    c.inherited == [] && c.base == 0 && c.link.loaded == [] && c.link.w == [] && c.link.sent == []
  }

  lemma UnservedFirst(s: Sys)
    requires Inv(s) && 1 in s.clients && s.h.delivered == []
    ensures Unserved(s.clients[1]) && IdsInv(s)
  {
    hide IdsInv, SourcesInv, ForwardsInv, AnswersInv, RepliesInv, Parse;
    ForEmpty(1);
    assert ClientFlow(s, 1) && OriginOk(s.clients[1], []);
    var c := s.clients[1];
    WithinLength(c.inherited, []);
    WithinLength(c.link.loaded + For(1, s.wIn), []);
  }

  lemma AnsweredResult(m: Mapping, reply: Output)
    requires OutputValid(reply)
    ensures Answered(m, reply).socket == m.socket && Loadable(Answered(m, reply).pdu)
    ensures DecodedOutput(Answered(m, reply).pdu).result == reply.result
  {
    hide OutputPdu, DecodedOutput;
    OutputPduRoundTrip(reply.(invokeid := Wrap64(m.original)));
  }

  /** The reply to the first of two requests waits; the second request is still outstanding. */
  predicate Half(s: Sys) {
    && !s.locked && 1 in s.clients && s.server.r == [] && s.rOut == [] && s.proc == Idle
    && |s.h.gens| == |s.mappings| == 1 && s.mappings[0].socket == 1 && s.mappings[0].generated == 2
    && |s.wIn| == 1 && s.h.delivered == s.wIn && s.wIn[0].socket == 1
    && DecodedOutput(s.wIn[0].pdu).result == [0] && Unserved(s.clients[1])
  }

  /** The first reply was thrown away, and the second one waits. */
  predicate Late(s: Sys) {
    && 1 in s.clients && |s.h.gens| == |s.mappings| && |s.wIn| == 1 && s.wIn[0].socket == 1 && Loadable(s.wIn[0].pdu)
    && |s.h.delivered| == 2 && s.h.delivered[1] == s.wIn[0] && s.h.delivered[0].socket == 1
    && s.h.delivered[0].pdu != s.wIn[0].pdu && Unserved(s.clients[1])
  }

  /** A reply that is routed by the first mapping alone, to an empty queue. */
  lemma OneRouted(s: Sys, reply: Output)
    requires |s.h.gens| == |s.mappings| && s.mappings != [] && s.wIn == []
    requires OutputValid(reply) && s.proc == Replying(OutputPdu(reply))
    requires forall j :: 0 <= j < |s.mappings| ==> (s.mappings[j].generated == Unsigned64(reply.invokeid) <==> j == 0)
    ensures var t := Next(s, DeliverReply);
            && |t.wIn| == 1 && t.h.delivered == s.h.delivered + t.wIn && t.proc == Idle
            && t.wIn[0].socket == s.mappings[0].socket && Loadable(t.wIn[0].pdu)
            && DecodedOutput(t.wIn[0].pdu).result == reply.result
            && t.mappings == s.mappings[1..] && |t.h.gens| == |t.mappings|
            && t.clients == s.clients && t.server == s.server && t.rOut == s.rOut && t.locked == s.locked
  {
    hide OutputPdu, DecodedOutput, Next, Keep, Hit, AnsweredAll, Answered, Loadable, Unsigned64, OutputValid;
    OutputPduRoundTrip(reply);
    Delivery(s);
    HitOne(s.mappings, ById(Unsigned64(reply.invokeid)), 0);
    AnsweredOnly(s.mappings[0], reply);
    AnsweredResult(s.mappings[0], reply);
    assert s.mappings[..0] + s.mappings[1..] == s.mappings[1..];
  }

  lemma FirstReplied(s: Sys)
    requires Flooded(s, 2) && Inv(s)
    ensures Half(Next(Next(Next(s, ReceiveServer(Frame(OutputPdu(REPLY)))), TakeReply), DeliverReply))
  {
    hide Inv, Frame, OutputPdu, DecodedOutput, Next, IdsInv, Loadable;
    UnservedFirst(s);
    TwoMappings(s);
    IdOfReply();
    ReplyComes(s, OutputPdu(REPLY));
    var a := Next(Next(s, ReceiveServer(Frame(OutputPdu(REPLY)))), TakeReply);
    OneRouted(a, REPLY);
    assert a.h.delivered + Next(a, DeliverReply).wIn == Next(a, DeliverReply).wIn;
  }

  lemma TwoMappings(s: Sys)
    requires Flooded(s, 2) && IdsInv(s)
    ensures |s.mappings| == |s.h.gens| == 2 && s.mappings[0].generated == 1 && s.mappings[1].generated == 2
    ensures s.mappings[0].socket == 1 && s.mappings[1].socket == 1
  {
    hide DecodedInput;
    assert s.mappings[0] == MappingOf(s.h.issued, 0) && s.mappings[1] == MappingOf(s.h.issued, 1);
  }

  lemma AnsweredOnly(m: Mapping, reply: Output)
    requires OutputValid(reply)
    ensures AnsweredAll([m], reply) == [Answered(m, reply)]
  {
    hide Answered;
  }

  lemma SecondReplied(s: Sys)
    requires Half(s)
    ensures var a := Next(Next(s, ReceiveServer(Frame(OutputPdu(SECOND_REPLY)))), TakeReply);
            Late(Next(Next(Next(Next(a, BeginCleanup), DrainRIn), DrainWIn), DeliverReply))
  {
    hide Frame, OutputPdu, DecodedOutput, Next, Loadable;
    ReplyComes(s, OutputPdu(SECOND_REPLY));
    var a := Next(Next(s, ReceiveServer(Frame(OutputPdu(SECOND_REPLY)))), TakeReply);
    DrainedMeanwhile(a);
    OneRouted(Next(Next(Next(a, BeginCleanup), DrainRIn), DrainWIn), SECOND_REPLY);
  }

  /** The first sections of a cleanup, while the processing thread holds a reply. */
  lemma DrainedMeanwhile(s: Sys)
    requires !s.locked && |s.h.gens| == |s.mappings|
    ensures var t := Next(Next(Next(s, BeginCleanup), DrainRIn), DrainWIn);
            && t.wIn == [] && t.proc == s.proc && t.clients == s.clients && t.mappings == s.mappings
            && t.h.gens == s.h.gens && t.h.delivered == s.h.delivered
  {
  }

  lemma LateRead(s: Sys) returns (n: nat)
    requires Late(s)
    ensures var t := Next(Next(s, LoadClient(1)), SendClient(1, n));
            && 1 in t.clients && t.clients[1].base <= |For(1, t.h.delivered)|
            && var got, owed := Parse(t.clients[1].link.sent).pdus, Owed(t.clients[1], For(1, t.h.delivered));
               |owed| == 2 && got == owed[1..] && !(got <= owed)
  {
    var p, d := s.wIn[0].pdu, s.h.delivered;
    n := |Frame(p)|;
    var t := Next(Next(s, LoadClient(1)), SendClient(1, n));
    OnlyFrame(s, p, n);
    hide *;
    BothOwed(d[0], d[1]);
    assert d == [d[0]] + [d[1]];
    GotSecond(t.clients[1], d[0].pdu, p);
  }

  /** The only waiting message goes out whole. */
  lemma OnlyFrame(s: Sys, p: Pdu, n: nat)
    requires Late(s) && p == s.wIn[0].pdu && n == |Frame(p)|
    ensures var t := Next(Next(s, LoadClient(1)), SendClient(1, n));
            && 1 in t.clients && t.h.delivered == s.h.delivered && Parse(t.clients[1].link.sent).pdus == [p]
            && t.clients[1].inherited == [] && t.clients[1].base == 0
            && |s.h.delivered| == 2 && s.h.delivered[0].socket == s.h.delivered[1].socket == 1
            && s.h.delivered[1].pdu == p && s.h.delivered[0].pdu != p
  {
    hide Frame, Parse, For, Next;
    MessageRead(s, p);
    var c := Next(Next(s, LoadClient(1)), SendClient(1, n)).clients[1];
    assert c.inherited == c.(link := s.clients[1].link).inherited && c.base == c.(link := s.clients[1].link).base;
  }

  lemma BothOwed(a: InMessage, b: InMessage)
    requires a.socket == b.socket == 1
    ensures For(1, [a] + [b]) == [a.pdu, b.pdu]
  {
    hide For;
    ForConcat(1, [a], [b]);
    ForOne(1, a);
    ForOne(1, b);
  }

  lemma GotSecond(c: Client, p: Pdu, q: Pdu)
    requires c.inherited == [] && c.base == 0 && p != q
    ensures Owed(c, [p, q]) == [p, q] && [q] == [p, q][1..] && !([q] <= [p, q])
  {
    assert [q][0] != [p, q][0];
  }

  /**
   * A client that is served while a cleanup goes on can miss a reply: two were delivered for it, and it reads the
   * second one only.
   */
  lemma ACleanupLosesAReply() returns (steps: seq<Step>)
    ensures var s := Run(INIT, steps);
            && Reachable(s) && 1 in s.clients && s.clients[1].base <= |For(1, s.h.delivered)|
            && var got, owed := Parse(s.clients[1].link.sent).pdus, Owed(s.clients[1], For(1, s.h.delivered));
               |owed| == 2 && got == owed[1..] && !(got <= owed)
  {
    hide Run, Next, Inv, Flooded, Half, Late, Frame, OutputPdu, Parse, For, Owed;
    steps := Flood(2);
    var s := Run(INIT, steps);
    InvAlways(steps);
    FirstReplied(s);
    var first, second := ReceiveServer(Frame(OutputPdu(REPLY))), ReceiveServer(Frame(OutputPdu(SECOND_REPLY)));
    steps := ThreeMore(steps, first, TakeReply, DeliverReply);
    SecondReplied(Run(INIT, steps));
    steps := ThreeMore(steps, second, TakeReply, BeginCleanup);
    steps := ThreeMore(steps, DrainRIn, DrainWIn, DeliverReply);
    var n := LateRead(Run(INIT, steps));
    RunMore(steps, LoadClient(1));
    RunMore(steps + [LoadClient(1)], SendClient(1, n));
    steps := steps + [LoadClient(1)] + [SendClient(1, n)];
    assert Reachable(Run(INIT, steps));
  }

  lemma ThreeMore(steps: seq<Step>, a: Step, b: Step, c: Step) returns (more: seq<Step>)
    ensures Run(INIT, more) == Next(Next(Next(Run(INIT, steps), a), b), c)
  {
    hide Run, Next;
    RunMore(steps, a);
    RunMore(steps + [a], b);
    RunMore(steps + [a] + [b], c);
    more := steps + [a] + [b] + [c];
  }
}

/** The invariant of the multiplexer holds in every reachable state. */
module MuxerInvariant {
  import opened Bytes
  import opened Per
  import opened Messages
  import opened Pdus
  import opened Framing
  import opened Relay
  import opened MuxerSystem

  // ---------------------------------------------------------------- messages of one socket

  lemma {:induction false} ForConcat(socket: int, a: seq<InMessage>, b: seq<InMessage>)
    ensures For(socket, a + b) == For(socket, a) + For(socket, b)
    decreases |b|
  {
    hide For;
    if b == [] {
      ForEmpty(socket);
      assert a + b == a;
    } else {
      var t, m := b[..|b| - 1], b[|b| - 1];
      var p := if m.socket == socket then [m.pdu] else [];
      calc {
        For(socket, a + b);
        { assert a + b == (a + t) + [m]; ForSnoc(socket, a + t, m); }
        For(socket, a + t) + p;
        { ForConcat(socket, a, t); Associate(For(socket, a), For(socket, t), p); }
        For(socket, a) + (For(socket, t) + p);
        { assert b == t + [m]; ForSnoc(socket, t, m); }
        For(socket, a) + For(socket, b);
      }
    }
  }

  lemma ForEmpty(socket: int)
    ensures For(socket, []) == []
  {
  }

  lemma Associate<X>(a: seq<X>, b: seq<X>, c: seq<X>)
    ensures a + b + c == a + (b + c)
  {
  }

  lemma ForSnoc(socket: int, a: seq<InMessage>, m: InMessage)
    ensures For(socket, a + [m]) == For(socket, a) + (if m.socket == socket then [m.pdu] else [])
  {
    assert (a + [m])[..|a|] == a;
  }

  lemma ForOne(socket: int, m: InMessage)
    ensures For(socket, [m]) == if m.socket == socket then [m.pdu] else []
  {
    assert [m][..0] == [];
  }

  lemma {:induction false} ForNone(socket: int, ms: seq<InMessage>)
    requires forall i :: 0 <= i < |ms| ==> ms[i].socket != socket
    ensures For(socket, ms) == []
  {
    if ms != [] { ForNone(socket, ms[..|ms| - 1]); }
  }

  lemma {:induction false} ForTagged(socket: int, ps: seq<Pdu>)
    ensures For(socket, Tagged(socket, ps)) == ps
  {
    if ps != [] {
      var t := ps[..|ps| - 1];
      ForTagged(socket, t);
      assert Tagged(socket, ps)[..|ps| - 1] == Tagged(socket, t);
    }
  }

  /** Taking a message out of the middle of the queue. */
  lemma ForWithout(socket: int, ms: seq<InMessage>, i: nat)
    requires i < |ms|
    ensures ms[i].socket != socket ==> For(socket, ms[..i] + ms[i + 1..]) == For(socket, ms)
    ensures i == FirstFor(socket, ms) ==> For(socket, ms) == [ms[i].pdu] + For(socket, ms[..i] + ms[i + 1..])
  {
    hide For;
    var a, m, b := ms[..i], ms[i], ms[i + 1..];
    assert ms == a + [m] + b;
    ForConcat(socket, a, b);
    ForConcat(socket, a + [m], b);
    ForConcat(socket, a, [m]);
    ForOne(socket, m);
    if i == FirstFor(socket, ms) {
      ForNone(socket, a);
    }
  }

  // ---------------------------------------------------------------- mappings and requests

  /** `a` is an increasing part of `gens`. */
  ghost predicate PartOf(a: seq<nat>, gens: seq<nat>) {
    Increasing(a) && forall g :: g in a ==> g in gens
  }

  lemma PartGrows(a: seq<nat>, gens: seq<nat>, g: nat)
    requires PartOf(a, gens) && Increasing(gens + [g])
    ensures PartOf(a, gens + [g]) && PartOf(a + [g], gens + [g]) && g !in a
  {
    var more := gens + [g];
    forall i | 0 <= i < |a| ensures a[i] < g && a[i] in more {
      assert a[i] in gens;
      var j :| 0 <= j < |gens| && gens[j] == a[i];
      assert more[j] < more[|gens|];
    }
    assert more[|gens|] == g;
  }

  lemma {:induction false} GensSplit(gens: seq<nat>, ms: seq<Mapping>, k: Key)
    requires |gens| == |ms| && Increasing(gens)
    ensures PartOf(KeepGens(gens, ms, k), gens) && PartOf(HitGens(gens, ms, k), gens)
    ensures forall g :: g in KeepGens(gens, ms, k) ==> g !in HitGens(gens, ms, k)
    decreases |ms|
  {
    IncreasingInit(gens);
    hide PartOf, Hits, Increasing;
    if ms == [] {
      EmptyPart(gens);
    } else {
      var n := |ms| - 1;
      var g, t := gens[n], gens[..n];
      assert gens == t + [g];
      GensSplit(t, ms[..n], k);
      var a, b := KeepGens(t, ms[..n], k), HitGens(t, ms[..n], k);
      PartGrows(a, t, g);
      PartGrows(b, t, g);
      GensSnoc(gens, ms, k);
      hide KeepGens, HitGens;
    }
  }

  /** The last mapping either stays or goes. */
  lemma GensSnoc(gens: seq<nat>, ms: seq<Mapping>, k: Key)
    requires |gens| == |ms| > 0
    ensures var n := |ms| - 1;
            var a, b := KeepGens(gens[..n], ms[..n], k), HitGens(gens[..n], ms[..n], k);
            && KeepGens(gens, ms, k) == (if Hits(ms[n], k) then a else a + [gens[n]])
            && HitGens(gens, ms, k) == (if Hits(ms[n], k) then b + [gens[n]] else b)
  {
    hide Hits;
    var n := |ms| - 1;
    var a, b := KeepGens(gens[..n], ms[..n], k), HitGens(gens[..n], ms[..n], k);
    assert a + [] == a && b + [] == b;
  }

  lemma IncreasingInit(gens: seq<nat>)
    requires Increasing(gens)
    ensures gens != [] ==> Increasing(gens[..|gens| - 1])
  {
  }

  lemma EmptyPart(gens: seq<nat>)
    ensures PartOf([], gens)
  {
  }

  lemma {:induction false} KeepTracks(ms: seq<Mapping>, gens: seq<nat>, issued: seq<InMessage>, k: Key)
    requires Tracks(ms, gens, issued)
    ensures Tracks(Keep(ms, k), KeepGens(gens, ms, k), issued)
    decreases |ms|
  {
    hide MappingOf, Hits, Increasing;
    GensSplit(gens, ms, k);
    if ms != [] {
      var n := |ms| - 1;
      IncreasingInit(gens);
      KeepTracks(ms[..n], gens[..n], issued, k);
      TracksOneMore(Keep(ms[..n], k), KeepGens(gens[..n], ms[..n], k), issued, ms[n], gens[n], !Hits(ms[n], k));
    }
  }

  lemma {:induction false} HitTracks(ms: seq<Mapping>, gens: seq<nat>, issued: seq<InMessage>, k: Key)
    requires Tracks(ms, gens, issued)
    ensures Tracks(Hit(ms, k), HitGens(gens, ms, k), issued)
    ensures forall i :: 0 <= i < |Hit(ms, k)| ==> Hits(Hit(ms, k)[i], k)
    decreases |ms|
  {
    hide MappingOf, Hits, Increasing;
    GensSplit(gens, ms, k);
    if ms != [] {
      var n := |ms| - 1;
      IncreasingInit(gens);
      HitTracks(ms[..n], gens[..n], issued, k);
      TracksOneMore(Hit(ms[..n], k), HitGens(gens[..n], ms[..n], k), issued, ms[n], gens[n], Hits(ms[n], k));
    }
  }

  lemma TracksOneMore(ms: seq<Mapping>, gens: seq<nat>, issued: seq<InMessage>, m: Mapping, g: nat, added: bool)
    requires Tracks(ms, gens, issued) && g < |issued| && m == MappingOf(issued, g)
    requires Increasing(gens + (if added then [g] else []))
    ensures Tracks(ms + (if added then [m] else []), gens + (if added then [g] else []), issued)
  {
    hide MappingOf, Increasing;
    assert ms + [] == ms && gens + [] == gens;
  }

  lemma TracksMore(ms: seq<Mapping>, gens: seq<nat>, issued: seq<InMessage>, m: InMessage)
    requires Tracks(ms, gens, issued)
    ensures var more := issued + [m];
            Tracks(ms + [MappingOf(more, |issued|)], gens + [|issued|], more)
  {
    var more := issued + [m];
    forall i | 0 <= i < |ms| ensures MappingOf(more, gens[i]) == MappingOf(issued, gens[i]) {
      assert more[gens[i]] == issued[gens[i]];
    }
  }

  lemma CounterStep(n: nat, counter: uint64)
    requires counter == if n == 0 then 0 else IdOf(n - 1)
    ensures NextId(counter) == IdOf(n)
  {
  }

  lemma IdsStep(s: Sys, step: Step)
    requires IdsInv(s) && Enabled(s, step)
    ensures IdsInv(Next(s, step))
  {
    hide Tracks, Keep, KeepGens, Hit, HitGens, For, Parse, DecodedInput, DecodedOutput, Forwarded, AnsweredAll, NextId,
      IdOf;
    match step {
      case Close(socket) => KeepTracks(s.mappings, s.h.gens, s.h.issued, BySockets({socket}));
      case MapRequest =>
        MapIds(s);
      case DeliverReply =>
        KeepTracks(s.mappings, s.h.gens, s.h.issued, ById(Unsigned64(DecodedOutput(s.proc.reply).invokeid)));
      case ClearMappings(socket) => KeepTracks(s.mappings, s.h.gens, s.h.issued, BySockets({socket}));
      case _ =>
    }
  }

  lemma MapIds(s: Sys)
    requires IdsInv(s) && s.proc.Requesting?
    ensures IdsInv(DoMapRequest(s))
    ensures NextId(s.counter) == IdOf(|s.h.issued|)
  {
    hide Tracks, DecodedInput, Forwarded, NextId, IdOf;
    var m, n := s.proc.request, |s.h.issued|;
    CounterStep(n, s.counter);
    TracksMore(s.mappings, s.h.gens, s.h.issued, m);
    assert (s.h.issued + [m])[n] == m;
  }

  // ---------------------------------------------------------------- where the requests come from

  lemma ReceiveSources(s: Sys, ms: seq<InMessage>)
    requires SourcesInv(s)
    ensures SourcesInv(s.(rIn := s.rIn + ms, h := s.h.(arrived := s.h.arrived + ms)))
  {
    var all := s.h.arrived + ms;
    assert all[s.h.taken..] == s.h.arrived[s.h.taken..] + ms;
    assert forall p :: 0 <= p < |s.h.arrived| ==> all[p] == s.h.arrived[p];
  }

  lemma TakeSources(s: Sys)
    requires SourcesInv(s) && s.proc == Idle && s.rIn != []
    ensures SourcesInv(DoTakeRequest(s))
  {
    var t, p := DoTakeRequest(s), s.h.taken;
    IncreasingSnoc(s.h.froms, p);
    forall q: nat | q < t.h.taken ensures q in t.h.froms || q in t.h.discarded {
      if q == p {
        assert t.h.froms[|s.h.froms|] == p;
      } else if q in s.h.froms {
        var k :| 0 <= k < |s.h.froms| && s.h.froms[k] == q;
        assert t.h.froms[k] == q;
      }
    }
  }

  lemma IncreasingSnoc(gens: seq<nat>, g: nat)
    requires Increasing(gens) && forall i :: 0 <= i < |gens| ==> gens[i] < g
    ensures Increasing(gens + [g])
  {
  }

  lemma MapSources(s: Sys)
    requires SourcesInv(s) && s.proc.Requesting?
    ensures SourcesInv(DoMapRequest(s))
  {
    hide Forwarded, DecodedInput, NextId, Increasing;
  }

  lemma DrainSources(s: Sys)
    requires SourcesInv(s)
    ensures SourcesInv(DoDrainRIn(s))
  {
    hide Increasing;
    var t := DoDrainRIn(s);
    assert s.h.arrived[|s.h.arrived|..] == [];
    forall p: nat | p < t.h.taken ensures p in t.h.froms || p in t.h.discarded {
      if p >= s.h.taken { assert IsUnread(s.h, p) && p in Unread(s.h); }
    }
    forall p | p in t.h.discarded ensures p < t.h.taken && p !in t.h.froms {
      if p in Unread(s.h) { assert IsUnread(s.h, p); }
    }
  }

  /** `SourcesInv` looks at nothing else. */
  lemma SourcesUntouched(s: Sys, t: Sys)
    requires SourcesInv(s) && t.rIn == s.rIn && t.h.arrived == s.h.arrived && t.h.taken == s.h.taken
    requires t.h.discarded == s.h.discarded && t.h.froms == s.h.froms && t.h.issued == s.h.issued
    requires t.proc == s.proc || (!s.proc.Requesting? && !t.proc.Requesting?)
    ensures SourcesInv(t)
  {
    hide Increasing;
  }

  lemma SourcesStep(s: Sys, step: Step)
    requires SourcesInv(s) && Enabled(s, step)
    ensures SourcesInv(Next(s, step))
  {
    hide SourcesInv, Keep, KeepGens, Hit, HitGens, For, Parse, DecodedInput, DecodedOutput, AnsweredAll, Tagged,
      FirstFor, DoTakeRequest, DoMapRequest, DoDrainRIn, Answers;
    match step {
      case TakeRequest => TakeSources(s);
      case MapRequest => MapSources(s);
      case DrainRIn => DrainSources(s);
      case ReceiveClient(socket, data) =>
        var ms := Tagged(socket, Parse(s.clients[socket].link.r + data).pdus);
        ReceiveSources(s, ms);
        SourcesUntouched(s.(rIn := s.rIn + ms, h := s.h.(arrived := s.h.arrived + ms)), Next(s, step));
      case _ => SourcesUntouched(s, Next(s, step));
    }
  }

  // ---------------------------------------------------------------- forwarding

  lemma MapForwards(s: Sys)
    requires IdsInv(s) && ForwardsInv(s) && s.proc.Requesting?
    ensures ForwardsInv(DoMapRequest(s))
  {
    hide Tracks, DecodedInput, Forwarded, NextId, IdOf;
    var h := s.h;
    MapIds(s);
    var more := h.issued + [s.proc.request];
    forall k | 0 <= k < |h.forwarded| ensures h.forwarded[k] == Forwarded(more[k].pdu, IdOf(k)) {
      assert more[k] == h.issued[k];
    }
  }

  lemma ForwardForwards(s: Sys)
    requires ForwardsInv(s) && s.proc.Forwarding?
    ensures ForwardsInv(s.(wOut := s.wOut + [s.proc.pdu], proc := Idle,
                           h := s.h.(forwarded := s.h.forwarded + [s.proc.pdu])))
  {
    hide Forwarded, IdOf;
  }

  /** `ForwardsInv` looks at nothing else. */
  lemma ForwardsUntouched(s: Sys, t: Sys)
    requires ForwardsInv(s) && t.h.issued == s.h.issued && t.h.forwarded == s.h.forwarded
    requires t.proc == s.proc || (!s.proc.Forwarding? && !t.proc.Forwarding?)
    ensures ForwardsInv(t)
  {
    hide Forwarded, IdOf;
  }

  lemma ForwardsStep(s: Sys, step: Step)
    requires IdsInv(s) && ForwardsInv(s) && Enabled(s, step)
    ensures ForwardsInv(Next(s, step))
  {
    hide ForwardsInv, IdsInv, Keep, KeepGens, Hit, HitGens, For, Parse, DecodedInput, DecodedOutput, AnsweredAll,
      Tagged, FirstFor, DoMapRequest, Answers;
    match step {
      case MapRequest => MapForwards(s);
      case ForwardRequest => ForwardForwards(s);
      case _ => ForwardsUntouched(s, Next(s, step));
    }
  }

  // ---------------------------------------------------------------- where the replies go

  lemma ReceiveReplies(s: Sys, ps: seq<Pdu>)
    requires RepliesInv(s)
    ensures RepliesInv(s.(rOut := s.rOut + ps, h := s.h.(replies := s.h.replies + ps)))
  {
    hide Increasing;
    var all := s.h.replies + ps;
    assert all[s.h.handled..] == s.h.replies[s.h.handled..] + ps;
    assert forall p :: 0 <= p < |s.h.replies| ==> all[p] == s.h.replies[p];
  }

  lemma TakeReplies(s: Sys)
    requires RepliesInv(s) && s.rOut != []
    ensures RepliesInv(DoTakeReply(s))
  {
    var t, p := DoTakeReply(s), s.h.handled;
    IncreasingSnoc(s.h.routes, p);
    forall q: nat | q < t.h.handled ensures q in t.h.routes || q in t.h.thrown {
      if q == p {
        assert t.h.routes[|s.h.routes|] == p;
      } else if q in s.h.routes {
        var k :| 0 <= k < |s.h.routes| && s.h.routes[k] == q;
        assert t.h.routes[k] == q;
      }
    }
  }

  lemma DrainReplies(s: Sys)
    requires RepliesInv(s)
    ensures RepliesInv(DoDrainROut(s))
  {
    hide Increasing;
    var t := DoDrainROut(s);
    assert s.h.replies[|s.h.replies|..] == [];
    forall p: nat | p < t.h.handled ensures p in t.h.routes || p in t.h.thrown {
      if p >= s.h.handled { assert IsUnrouted(s.h, p) && p in Unrouted(s.h); }
    }
    forall p | p in t.h.thrown ensures p < t.h.handled && p !in t.h.routes {
      if p in Unrouted(s.h) { assert IsUnrouted(s.h, p); }
    }
  }

  /** `RepliesInv` looks at nothing else. */
  lemma RepliesUntouched(s: Sys, t: Sys)
    requires RepliesInv(s) && t.rOut == s.rOut && t.h.replies == s.h.replies && t.h.handled == s.h.handled
    requires t.h.thrown == s.h.thrown && t.h.routes == s.h.routes && (t.proc == s.proc || !t.proc.Replying?)
    ensures RepliesInv(t)
  {
    hide Increasing;
  }

  lemma RepliesStep(s: Sys, step: Step)
    requires RepliesInv(s) && Enabled(s, step)
    ensures RepliesInv(Next(s, step))
  {
    hide RepliesInv, Keep, KeepGens, Hit, HitGens, For, Parse, DecodedInput, DecodedOutput, Forwarded, AnsweredAll,
      NextId, IdOf, Tagged, FirstFor, DoTakeReply, DoDrainROut, Answers, Unread;
    match step {
      case TakeReply => TakeReplies(s);
      case DrainROut => DrainReplies(s);
      case ReceiveServer(data) =>
        var ps := Parse(s.server.r + data).pdus;
        ReceiveReplies(s, ps);
        RepliesUntouched(s.(rOut := s.rOut + ps, h := s.h.(replies := s.h.replies + ps)), Next(s, step));
      case _ => RepliesUntouched(s, Next(s, step));
    }
  }

  /** Answers keep their turns when replies arrive or are taken. */
  lemma TurnsKept(s: Sys, t: Sys)
    requires TurnsInv(s) && t.h.answers == s.h.answers && s.h.routes <= t.h.routes && s.h.replies <= t.h.replies
    ensures TurnsInv(t)
  {
    forall i | 0 <= i < |t.h.answers| ensures TurnOk(t.h, t.h.answers[i]) {
      var a := s.h.answers[i];
      assert TurnOk(s.h, a) && t.h.routes[a.turn - 1] == s.h.routes[a.turn - 1];
    }
  }

  /** The answers to the reply in progress come last. */
  lemma TurnsMore(s: Sys, t: Sys, more: seq<nat>)
    requires TurnsInv(s) && RepliesInv(s) && s.proc.Replying?
    requires t.h.routes == s.h.routes && t.h.replies == s.h.replies
    requires t.h.answers == s.h.answers + Answers(more, s.proc.reply, |s.h.routes|)
    ensures TurnsInv(t)
  {
    hide Increasing;
    forall i | 0 <= i < |t.h.answers| ensures TurnOk(t.h, t.h.answers[i]) {
      assert i < |s.h.answers| ==> TurnOk(s.h, s.h.answers[i]);
    }
    assert forall i :: 0 <= i < |s.h.answers| ==> TurnOk(s.h, s.h.answers[i]);
  }

  lemma TurnsStep(s: Sys, step: Step)
    requires RepliesInv(s) && TurnsInv(s) && Enabled(s, step)
    ensures TurnsInv(Next(s, step))
  {
    hide TurnsInv, RepliesInv, Keep, KeepGens, Hit, HitGens, For, Parse, DecodedInput, DecodedOutput, Forwarded,
      AnsweredAll, NextId, IdOf, Tagged, FirstFor, Answers, Unread, Unrouted;
    if step.DeliverReply? {
      var k := ById(Unsigned64(DecodedOutput(s.proc.reply).invokeid));
      TurnsMore(s, Next(s, step), HitGens(s.h.gens, s.mappings, k));
    } else {
      TurnsKept(s, Next(s, step));
    }
  }

  // ---------------------------------------------------------------- answers

  /** Answers stay right when requests are issued, replies arrive and mappings disappear. */
  lemma AnswersKept(h: History, g: History)
    requires AnswersInv(h) && g.answers == h.answers && g.delivered == h.delivered
    requires h.issued <= g.issued && h.replies <= g.replies
    requires forall x :: x in g.gens ==> x in h.gens || x >= |h.issued|
    ensures AnswersInv(g)
  {
    hide DecodedInput, DecodedOutput, Answered, IdOf;
    forall i | 0 <= i < |g.answers| ensures AnswerOk(g, g.answers[i], g.delivered[i]) {
      assert AnswerOk(h, h.answers[i], h.delivered[i]);
      assert g.issued[h.answers[i].gen] == h.issued[h.answers[i].gen];
    }
  }

  lemma NewAnswers(s: Sys)
    requires IdsInv(s) && RepliesInv(s) && AnswersInv(s.h) && s.proc.Replying?
    ensures AnswersInv(DoDeliverReply(s).h)
  {
    assert |s.mappings| == |s.h.gens|;
    hide Keep, KeepGens, Hit, HitGens, DecodedInput, DecodedOutput, Answered, IdOf, AnswersInv, Tracks, AnswerOk,
      PartOf;
    var reply := DecodedOutput(s.proc.reply);
    var k := ById(Unsigned64(reply.invokeid));
    var gens, more := KeepGens(s.h.gens, s.mappings, k), HitGens(s.h.gens, s.mappings, k);
    SplitOf(s, k);
    var h := s.h.(gens := gens);
    AnswersKept(s.h, h);
    var out := AnsweredAll(Hit(s.mappings, k), reply);
    forall j | 0 <= j < |more| ensures AnswerOk(h, Answer(more[j], s.proc.reply, |s.h.routes|), out[j]) {
      NewAnswer(s, reply, k, gens, more, j, out[j]);
    }
    AnswersAppend(s.h, h, more, s.proc.reply, |s.h.routes|, out);
  }

  lemma NewAnswer(s: Sys, reply: Output, k: Key, gens: seq<nat>, more: seq<nat>, j: nat, d: InMessage)
    requires Tracks(s.mappings, s.h.gens, s.h.issued) && RepliesInv(s) && s.proc.Replying?
    requires reply == DecodedOutput(s.proc.reply) && k == ById(Unsigned64(reply.invokeid))
    requires gens == KeepGens(s.h.gens, s.mappings, k) && more == HitGens(s.h.gens, s.mappings, k)
    requires j < |more| && d == Answered(Hit(s.mappings, k)[j], reply)
    ensures AnswerOk(s.h.(gens := gens), Answer(more[j], s.proc.reply, |s.h.routes|), d)
  {
    SplitOf(s, k);
    hide Keep, KeepGens, Hit, HitGens, DecodedInput, DecodedOutput, Answered, IdOf, Tracks, PartOf;
    HitIs(s, k, j);
    assert more[j] in more;
  }

  lemma SplitOf(s: Sys, k: Key)
    requires Tracks(s.mappings, s.h.gens, s.h.issued)
    ensures PartOf(KeepGens(s.h.gens, s.mappings, k), s.h.gens) && PartOf(HitGens(s.h.gens, s.mappings, k), s.h.gens)
    ensures forall g :: g in KeepGens(s.h.gens, s.mappings, k) ==> g !in HitGens(s.h.gens, s.mappings, k)
  {
    hide KeepGens, HitGens;
    GensSplit(s.h.gens, s.mappings, k);
  }

  lemma HitIs(s: Sys, k: Key, j: nat)
    requires Tracks(s.mappings, s.h.gens, s.h.issued) && j < |Hit(s.mappings, k)|
    ensures var g := HitGens(s.h.gens, s.mappings, k)[j];
            g < |s.h.issued| && Hit(s.mappings, k)[j] == MappingOf(s.h.issued, g) && Hits(MappingOf(s.h.issued, g), k)
  {
    hide KeepGens, HitGens, Hit;
    HitTracks(s.mappings, s.h.gens, s.h.issued, k);
  }

  lemma AnswersAppend(h0: History, h: History, more: seq<nat>, reply: Pdu, turn: nat, out: seq<InMessage>)
    requires AnswersInv(h0) && AnswersInv(h) && h.answers == h0.answers
    requires PartOf(more, h0.gens) && |out| == |more|
    requires forall j :: 0 <= j < |more| ==> AnswerOk(h, Answer(more[j], reply, turn), out[j])
    ensures AnswersInv(h.(answers := h.answers + Answers(more, reply, turn), delivered := h.delivered + out))
  {
    hide DeliveredFor, DecodedOutput, IdOf, PartOf, Unsigned64;
    var g := h.(answers := h.answers + Answers(more, reply, turn), delivered := h.delivered + out);
    forall i | 0 <= i < |g.answers| ensures AnswerOk(g, g.answers[i], g.delivered[i]) {
      if i < |h.answers| {
        assert AnswerOk(h, h.answers[i], h.delivered[i]);
      } else {
        assert AnswerOk(h, Answer(more[i - |h.answers|], reply, turn), out[i - |h.answers|]);
      }
    }
    forall i, j | 0 <= i < j < |g.answers| ensures g.answers[i].gen != g.answers[j].gen {
      DistinctGens(h0, h, more, reply, turn, i, j);
    }
  }

  lemma DistinctGens(h0: History, h: History, more: seq<nat>, reply: Pdu, turn: nat, i: nat, j: nat)
    requires AnswersInv(h0) && h.answers == h0.answers && PartOf(more, h0.gens)
    requires i < j < |h.answers| + |more|
    ensures (h.answers + Answers(more, reply, turn))[i].gen != (h.answers + Answers(more, reply, turn))[j].gen
  {
    hide DeliveredFor, DecodedOutput, IdOf, Unsigned64;
    if i < |h.answers| <= j {
      assert AnswerOk(h0, h0.answers[i], h0.delivered[i]);
      assert more[j - |h.answers|] in more;
    }
  }

  lemma AnswersStep(s: Sys, step: Step)
    requires IdsInv(s) && RepliesInv(s) && AnswersInv(s.h) && Enabled(s, step)
    ensures AnswersInv(Next(s, step).h)
  {
    hide Tracks, Keep, KeepGens, Hit, HitGens, For, Parse, DecodedInput, DecodedOutput, Forwarded, AnsweredAll, NextId,
      IdOf, Tagged, FirstFor, AnswersInv, Answers;
    match step {
      case Close(socket) => SplitOf(s, BySockets({socket}));
      case ClearMappings(socket) => SplitOf(s, BySockets({socket}));
      case DeliverReply => NewAnswers(s); return;
      case _ =>
    }
    AnswersKept(s.h, Next(s, step).h);
  }

  // ---------------------------------------------------------------- buffers

  /** A step that changes at most the buffers of one client, or those of the server, and queues only small PDUs. */
  lemma LinksChanged(s: Sys, t: Sys, socket: int)
    requires LinksInv(s) && LinkOk(t.server)
    requires socket in t.clients ==> LinkOk(t.clients[socket].link)
    requires forall c :: c in t.clients && c != socket ==> c in s.clients && t.clients[c] == s.clients[c]
    requires forall i :: 0 <= i < |t.wIn| ==> t.wIn[i] in s.wIn || Loadable(t.wIn[i].pdu)
    ensures LinksInv(t)
  {
    hide LinkOk, Loadable;
  }

  lemma LinksStep(s: Sys, step: Step)
    requires LinksInv(s) && ForwardsInv(s) && FlowInv(s) && Enabled(s, step)
    ensures LinksInv(Next(s, step))
  {
    hide Tracks, Keep, KeepGens, Hit, HitGens, For, Parse, DecodedInput, DecodedOutput, Forwarded, NextId, IdOf, Tagged,
      FirstFor, AnswersInv, Answers, LinkOk, LinkReceive, LinkLoad, LinkSend, ForwardsInv, FlowInv, OutputPdu, InputPdu,
      DoReceiveClient, DoLoadClient;
    match step {
      case ReceiveServer(data) => LinkReceiveOk(s.server, data);
      case LoadServer =>
        WaitingLoadable(s, 0);
        LinkLoadOk(s.server, s.wOut[0]);
      case SendServer(n) => LinkSendOk(s.server, n);
      case BeginCleanup => FreshLinkOk();
      case Accept(socket) =>
        FreshLinkOk();
        LinksChanged(s, Next(s, step), socket);
      case ReceiveClient(socket, data) => ReceiveLinks(s, socket, data);
      case LoadClient(socket) => LoadLinks(s, socket);
      case SendClient(socket, n) =>
        LinkSendOk(s.clients[socket].link, n);
        LinksChanged(s, Next(s, step), socket);
      case _ =>
    }
  }

  lemma ReceiveLinks(s: Sys, socket: int, data: seq<byte>)
    requires LinksInv(s) && Enabled(s, ReceiveClient(socket, data))
    ensures LinksInv(DoReceiveClient(s, socket, data))
  {
    hide LinkOk, LinkReceive, Parse, Tagged;
    LinkReceiveOk(s.clients[socket].link, data);
    LinksChanged(s, DoReceiveClient(s, socket, data), socket);
  }

  lemma LoadLinks(s: Sys, socket: int)
    requires LinksInv(s) && Enabled(s, LoadClient(socket))
    ensures LinksInv(DoLoadClient(s, socket))
  {
    hide LinkOk, LinkLoad, FirstFor;
    LinkLoadOk(s.clients[socket].link, s.wIn[FirstFor(socket, s.wIn)].pdu);
    LinksChanged(s, DoLoadClient(s, socket), socket);
  }

  lemma FreshLinkOk()
    ensures LinkOk(FRESH_LINK)
  {
  }

  /** What waits for the server are re-encoded requests, which are always small. */
  lemma WaitingLoadable(s: Sys, i: nat)
    requires ForwardsInv(s) && FlowInv(s) && i < |s.wOut|
    ensures Loadable(s.wOut[i])
  {
    hide IdOf, LinkOk, ClientFlow, Forwarded;
    var all := s.h.forwarded[s.h.forwardedBase..];
    var n := |s.server.loaded| + i;
    assert all[n] == s.wOut[i] && all[n] == s.h.forwarded[s.h.forwardedBase + n];
  }

  // ---------------------------------------------------------------- order per client

  lemma FlowStep(s: Sys, step: Step)
    requires FlowInv(s) && Enabled(s, step)
    ensures FlowInv(Next(s, step))
  {
    ServerFlow(s, step);
    var t := Next(s, step);
    forall socket | socket in t.clients ensures ClientFlow(t, socket) {
      ClientStep(s, step, socket);
    }
  }

  /** What the server's flow is about. */
  predicate SameServer(s: Sys, t: Sys) {
    && t.server.loaded == s.server.loaded && t.wOut == s.wOut && t.locked == s.locked
    && t.h.forwarded == s.h.forwarded && t.h.forwardedBase == s.h.forwardedBase
    && t.server.queued == s.server.queued
    && t.h.replies == s.h.replies && t.h.repliesBase == s.h.repliesBase
  }

  lemma OtherServer(s: Sys, step: Step)
    requires Enabled(s, step) && !step.ForwardRequest? && !step.LoadServer? && !step.ReceiveServer?
    requires !step.BeginCleanup? && !step.DrainWOut? && !step.EndCleanup?
    ensures SameServer(s, Next(s, step))
  {
    hide Keep, KeepGens, Hit, HitGens, For, Parse, DecodedInput, DecodedOutput, Forwarded, AnsweredAll, NextId, Tagged,
      FirstFor, Answers, LinkLoad, Unread;
  }

  lemma ServerFlow(s: Sys, step: Step)
    requires ServerOk(s) && Enabled(s, step)
    ensures ServerOk(Next(s, step))
  {
    match step {
      case ForwardRequest => ForwardServer(s);
      case LoadServer => LoadedServer(s);
      case ReceiveServer(data) => ReceivedServer(s, data);
      case BeginCleanup => ResetServer(s);
      case DrainWOut => assert s.h.forwarded[|s.h.forwarded|..] == [];
      case EndCleanup =>
      case _ =>
        hide Next;
        OtherServer(s, step);
    }
  }

  lemma ForwardServer(s: Sys)
    requires ServerOk(s) && Enabled(s, ForwardRequest)
    ensures ServerOk(Next(s, ForwardRequest))
  {
    var base := s.h.forwardedBase;
    assert (s.h.forwarded + [s.proc.pdu])[base..] == s.h.forwarded[base..] + [s.proc.pdu];
    assert s.server.loaded + (s.wOut + [s.proc.pdu]) == s.server.loaded + s.wOut + [s.proc.pdu];
  }

  lemma LoadedServer(s: Sys)
    requires ServerOk(s) && Enabled(s, LoadServer)
    ensures ServerOk(Next(s, LoadServer))
  {
    hide Frame;
    assert s.server.loaded + [s.wOut[0]] + s.wOut[1..] == s.server.loaded + s.wOut;
  }

  lemma ReceivedServer(s: Sys, data: seq<byte>)
    requires ServerOk(s) && Enabled(s, ReceiveServer(data))
    ensures ServerOk(Next(s, ReceiveServer(data)))
  {
    hide Parse;
    var base, ps := s.h.repliesBase, Parse(s.server.r + data).pdus;
    assert (s.h.replies + ps)[base..] == s.h.replies[base..] + ps;
  }

  lemma ResetServer(s: Sys)
    requires ServerOk(s) && Enabled(s, BeginCleanup)
    ensures ServerOk(Next(s, BeginCleanup))
  {
    var base, n := s.h.forwardedBase, |s.server.loaded|;
    assert s.h.forwarded[base + n..] == s.h.forwarded[base..][n..];
    assert s.h.replies[|s.h.replies|..] == [];
  }

  /** Each client's own queue after a step. */
  lemma ClientStep(s: Sys, step: Step, socket: int)
    requires FlowInv(s) && Enabled(s, step) && socket in Next(s, step).clients
    ensures ClientFlow(Next(s, step), socket)
  {
    hide Keep, KeepGens, Hit, HitGens, For, Parse, DecodedInput, DecodedOutput, Forwarded, AnsweredAll, NextId, IdOf,
      Tagged, FirstFor, Answers, Frame, FlowOk;
    assert socket in s.clients ==> ClientFlow(s, socket);
    match step {
      case Accept(other) =>
        if other == socket { AcceptFlow(For(socket, s.h.delivered), For(socket, s.wIn), s.h.arrived, socket); }
      case ReceiveClient(other, data) => ReceiveFlow(s, other, data, socket);
      case DeliverReply =>
        var reply := DecodedOutput(s.proc.reply);
        var out := AnsweredAll(Hit(s.mappings, ById(Unsigned64(reply.invokeid))), reply);
        DeliverClient(s, Next(s, step), socket, out);
      case LoadClient(other) => LoadFlow(s, other, socket);
      case SendClient(other, n) =>
        SendFlow(s.clients[other], n, For(socket, s.h.delivered), For(socket, s.wIn), s.h.arrived, socket);
      case Drop(i) => ForWithout(socket, s.wIn, i);
      case DrainWIn =>
        DrainClient(s, socket);
      case _ =>
    }
  }

  lemma AcceptFlow(delivered: seq<Pdu>, waiting: seq<Pdu>, arrived: seq<InMessage>, socket: int)
    ensures FlowOk(Client(FRESH_LINK, waiting, |delivered|, |arrived|), delivered, waiting, arrived, socket)
  {
    hide Within;
    WithinSelf(waiting);
    assert [] + waiting == waiting && waiting + delivered[|delivered|..] == waiting;
    assert arrived[|arrived|..] == [];
  }

  /** New deliveries are owed to the client and wait for it. */
  lemma OwedMore(c: Client, delivered: seq<Pdu>, waiting: seq<Pdu>, out: seq<Pdu>)
    requires c.base <= |delivered|
    ensures Owed(c, delivered + out) == Owed(c, delivered) + out
    ensures c.link.loaded + (waiting + out) == c.link.loaded + waiting + out
  {
    assert (delivered + out)[c.base..] == delivered[c.base..] + out;
  }

  lemma DeliverFlow(c: Client, delivered: seq<Pdu>, waiting: seq<Pdu>, arrived: seq<InMessage>, socket: int,
                    out: seq<Pdu>)
    requires FlowOk(c, delivered, waiting, arrived, socket)
    ensures FlowOk(c, delivered + out, waiting + out, arrived, socket)
  {
    hide Within, For, Owed;
    OwedMore(c, delivered, waiting, out);
    WithinMore(c.link.loaded + waiting, Owed(c, delivered), out);
  }

  lemma DeliverClient(s: Sys, t: Sys, socket: int, out: seq<InMessage>)
    requires socket in s.clients && ClientFlow(s, socket)
    requires t.clients == s.clients && t.wIn == s.wIn + out
    requires t.h.delivered == s.h.delivered + out && t.h.arrived == s.h.arrived
    ensures ClientFlow(t, socket)
  {
    hide For, FlowOk;
    ForConcat(socket, s.h.delivered, out);
    ForConcat(socket, s.wIn, out);
    DeliverFlow(s.clients[socket], For(socket, s.h.delivered), For(socket, s.wIn), s.h.arrived, socket,
      For(socket, out));
  }

  lemma DrainClient(s: Sys, socket: int)
    requires socket in s.clients && ClientFlow(s, socket)
    ensures ClientFlow(s.(wIn := []), socket)
  {
    hide For, FlowOk;
    ForEmpty(socket);
    DrainFlow(s.clients[socket], For(socket, s.h.delivered), For(socket, s.wIn), s.h.arrived, socket);
  }

  lemma SendFlow(c: Client, n: nat, delivered: seq<Pdu>, waiting: seq<Pdu>, arrived: seq<InMessage>, socket: int)
    requires n <= |c.link.w|
    ensures FlowOk(c, delivered, waiting, arrived, socket) ==>
            FlowOk(c.(link := LinkSend(c.link, n)), delivered, waiting, arrived, socket)
  {
    hide Within, For;
  }

  lemma DrainFlow(c: Client, delivered: seq<Pdu>, waiting: seq<Pdu>, arrived: seq<InMessage>, socket: int)
    requires FlowOk(c, delivered, waiting, arrived, socket)
    ensures FlowOk(c, delivered, [], arrived, socket)
  {
    hide Within, For, Owed;
    var all := c.link.loaded + waiting;
    WithinPrefix(all, Owed(c, delivered), |c.link.loaded|);
    assert all[..|c.link.loaded|] == c.link.loaded + [];
  }

  lemma ReceiveFlow(s: Sys, other: int, data: seq<byte>, socket: int)
    requires other in s.clients && socket in s.clients && ClientFlow(s, socket)
    ensures ClientFlow(DoReceiveClient(s, other, data), socket)
  {
    hide Parse, For, Tagged, Within;
    var c := s.clients[other];
    var ms := Tagged(other, Parse(c.link.r + data).pdus);
    var since := s.clients[socket].since;
    assert (s.h.arrived + ms)[since..] == s.h.arrived[since..] + ms;
    ForConcat(socket, s.h.arrived[since..], ms);
    if other == socket {
      ForTagged(socket, Parse(c.link.r + data).pdus);
    } else {
      ForNone(socket, ms);
    }
  }

  lemma LoadFlow(s: Sys, other: int, socket: int)
    requires other in s.clients && socket in s.clients && ClientFlow(s, socket)
    requires FirstFor(other, s.wIn) < |s.wIn|
    ensures ClientFlow(DoLoadClient(s, other), socket)
  {
    hide For, FirstFor, Frame, Within;
    LoadKeeps(s, other, socket);
  }

  /** Loading moves a message from what waits to what was loaded. */
  lemma LoadKeeps(s: Sys, other: int, socket: int)
    requires other in s.clients && socket in s.clients && FirstFor(other, s.wIn) < |s.wIn|
    ensures var t := DoLoadClient(s, other);
            && socket in t.clients && t.h == s.h
            && t.clients[socket].(link := s.clients[socket].link) == s.clients[socket]
            && t.clients[socket].link.queued == s.clients[socket].link.queued
            && t.clients[socket].link.loaded + For(socket, t.wIn) == s.clients[socket].link.loaded + For(socket, s.wIn)
  {
    hide For, FirstFor, Frame;
    var i := FirstFor(other, s.wIn);
    ForWithout(socket, s.wIn, i);
    if other == socket {
      var c, p := s.clients[other], s.wIn[i].pdu;
      var later := For(socket, s.wIn[..i] + s.wIn[i + 1..]);
      assert c.link.loaded + [p] + later == c.link.loaded + ([p] + later);
    }
  }

  // ---------------------------------------------------------------- order-preserving parts

  lemma WithinInit<T>(a: seq<T>, b: seq<T>, x: T)
    requires Within(a, b)
    ensures Within(a, b + [x]) && Within(a + [x], b + [x])
  {
    assert (b + [x])[..|b|] == b && (a + [x])[..|a|] == a;
  }

  lemma {:induction false} WithinSelf<T>(a: seq<T>)
    ensures Within(a, a)
  {
    if a != [] { WithinSelf(a[..|a| - 1]); }
  }

  lemma {:induction false} WithinTrans<T>(a: seq<T>, b: seq<T>, c: seq<T>)
    requires Within(a, b) && Within(b, c)
    ensures Within(a, c)
    decreases |c|
  {
    if a != [] && b != [] {
      var i, j, k := |a| - 1, |b| - 1, |c| - 1;
      if Within(b, c[..k]) {
        WithinTrans(a, b, c[..k]);
      } else if Within(a, b[..j]) {
        WithinTrans(a, b[..j], c[..k]);
      } else {
        WithinTrans(a[..i], b[..j], c[..k]);
      }
    }
  }

  /** A part that is as long as the whole is the whole. */
  lemma {:induction false} WithinLength<T>(a: seq<T>, b: seq<T>)
    requires Within(a, b)
    ensures |a| <= |b| && (|a| == |b| ==> a == b)
    decreases |b|
  {
    if a != [] {
      var i, j := |a| - 1, |b| - 1;
      if Within(a, b[..j]) {
        WithinLength(a, b[..j]);
      } else {
        WithinLength(a[..i], b[..j]);
        assert a == a[..i] + [a[i]] && b == b[..j] + [b[j]];
      }
    }
  }

  lemma {:induction false} WithinMore<T>(a: seq<T>, b: seq<T>, c: seq<T>)
    requires Within(a, b)
    ensures Within(a, b + c) && Within(a + c, b + c)
    decreases |c|
  {
    hide Within;
    if c == [] {
      assert a + c == a && b + c == b;
    } else {
      var n := |c| - 1;
      WithinMore(a, b, c[..n]);
      WithinInit(a, b + c[..n], c[n]);
      WithinInit(a + c[..n], b + c[..n], c[n]);
      SnocAgain(a, c);
      SnocAgain(b, c);
    }
  }

  lemma SnocAgain<T>(a: seq<T>, c: seq<T>)
    requires c != []
    ensures a + c == a + c[..|c| - 1] + [c[|c| - 1]]
  {
  }

  lemma CutBefore<T>(u: seq<T>, x: T, i: nat)
    requires i < |u|
    ensures (u + [x])[..i] + (u + [x])[i + 1..] == u[..i] + u[i + 1..] + [x]
  {
  }

  lemma WithinCases<T>(a: seq<T>, b: seq<T>)
    requires Within(a, b) && a != []
    ensures var m, n := |a| - 1, |b| - 1;
            b != [] && (Within(a, b[..n]) || (a[m] == b[n] && Within(a[..m], b[..n])))
  {
  }

  lemma {:induction false} WithinLess<T>(a: seq<T>, b: seq<T>, i: nat)
    requires Within(a, b) && i < |a|
    ensures Within(a[..i] + a[i + 1..], b)
    decreases |b|
  {
    hide Within;
    WithinCases(a, b);
    var u, t, x := a[..|a| - 1], b[..|b| - 1], b[|b| - 1];
    assert b == t + [x];
    if Within(a, t) {
      WithinLess(a, t, i);
      WithinInit(a[..i] + a[i + 1..], t, x);
    } else {
      assert a == u + [x];
      if i == |u| {
        assert a[..i] + a[i + 1..] == u;
        WithinInit(u, t, x);
      } else {
        WithinLess(u, t, i);
        WithinInit(u[..i] + u[i + 1..], t, x);
        CutBefore(u, x, i);
      }
    }
  }

  lemma {:induction false} WithinPrefix<T>(a: seq<T>, b: seq<T>, n: nat)
    requires Within(a, b) && n <= |a|
    ensures Within(a[..n], b)
    decreases |a|
  {
    hide Within;
    if n < |a| {
      var m := |a| - 1;
      WithinLess(a, b, m);
      assert a[..m] + a[m + 1..] == a[..m] && a[..m][..n] == a[..n];
      WithinPrefix(a[..m], b, n);
    } else {
      assert a[..n] == a;
    }
  }

  lemma {:induction false} WithinFor(socket: int, a: seq<InMessage>, b: seq<InMessage>)
    requires Within(a, b)
    ensures Within(For(socket, a), For(socket, b))
    decreases |b|
  {
    if a != [] {
      var m, n := |a| - 1, |b| - 1;
      var x, t := b[n], b[..n];
      var p := if x.socket == socket then [x.pdu] else [];
      if Within(a, t) {
        WithinFor(socket, a, t);
        WithinMore(For(socket, a), For(socket, t), p);
      } else {
        WithinFor(socket, a[..m], t);
        WithinMore(For(socket, a[..m]), For(socket, t), p);
      }
    }
  }

  /** The positions in `b` that an order-preserving part of it occupies. */
  lemma {:induction false} WithinAt<T>(a: seq<T>, b: seq<T>) returns (ps: seq<nat>)
    requires Within(a, b)
    ensures Increasing(ps) && |ps| == |a| && forall i :: 0 <= i < |a| ==> ps[i] < |b| && a[i] == b[ps[i]]
    decreases |b|
  {
    if a == [] {
      ps := [];
    } else {
      var m, n := |a| - 1, |b| - 1;
      if Within(a, b[..n]) {
        ps := WithinAt(a, b[..n]);
      } else {
        ps := WithinAt(a[..m], b[..n]);
        ps := ps + [n];
      }
    }
  }

  /** The position of the message for `socket` that has `q` others for it before it. */
  function PlaceOf(socket: int, ms: seq<InMessage>, q: nat): (d: nat)
    requires q < |For(socket, ms)|
    ensures d < |ms| && ms[d] == InMessage(socket, For(socket, ms)[q])
    decreases |ms|
  {
    var n := |ms| - 1;
    if q < |For(socket, ms[..n])| then PlaceOf(socket, ms[..n], q) else n
  }

  lemma {:induction false} PlacesRise(socket: int, ms: seq<InMessage>, q: nat, r: nat)
    requires q < r < |For(socket, ms)|
    ensures PlaceOf(socket, ms, q) < PlaceOf(socket, ms, r)
    decreases |ms|
  {
    var n := |ms| - 1;
    if r < |For(socket, ms[..n])| { PlacesRise(socket, ms[..n], q, r); }
  }

  /** Exactly `q` messages for the socket stand before that position. */
  lemma {:induction false} PlaceCounts(socket: int, ms: seq<InMessage>, q: nat)
    requires q < |For(socket, ms)|
    ensures |For(socket, ms[..PlaceOf(socket, ms, q)])| == q
    decreases |ms|
  {
    var n := |ms| - 1;
    if q < |For(socket, ms[..n])| {
      PlaceCounts(socket, ms[..n], q);
      assert ms[..n][..PlaceOf(socket, ms[..n], q)] == ms[..PlaceOf(socket, ms, q)];
    }
  }

  // ---------------------------------------------------------------- where the messages come from

  predicate SameMarks(c: Client, d: Client) {
    d.base == c.base && d.inherited == c.inherited
  }

  lemma OriginsKept(s: Sys, t: Sys)
    requires OriginInv(s) && Within(t.wIn, t.h.delivered) && t.h.delivered == s.h.delivered
    requires forall x :: x in t.clients ==> x in s.clients && SameMarks(s.clients[x], t.clients[x])
    ensures OriginInv(t)
  {
    hide Within, For;
  }

  lemma AcceptOrigin(s: Sys, socket: int)
    requires OriginInv(s) && socket !in s.clients
    ensures OriginInv(DoAccept(s, socket))
  {
    hide Within, For;
    WithinFor(socket, s.wIn, s.h.delivered);
    var all := For(socket, s.h.delivered);
    assert all[..|all|] == all;
  }

  lemma DeliverOrigin(s: Sys, out: seq<InMessage>)
    requires OriginInv(s)
    ensures OriginInv(s.(wIn := s.wIn + out, h := s.h.(delivered := s.h.delivered + out)))
  {
    hide Within, For;
    WithinMore(s.wIn, s.h.delivered, out);
    forall x | x in s.clients ensures OriginOk(s.clients[x], For(x, s.h.delivered + out)) {
      ForConcat(x, s.h.delivered, out);
      var all, more := For(x, s.h.delivered), For(x, out);
      assert OriginOk(s.clients[x], all);
      assert (all + more)[..s.clients[x].base] == all[..s.clients[x].base];
    }
  }

  /** The same clients, the same queue and the same deliveries. */
  lemma SameOrigin(s: Sys, t: Sys)
    requires OriginInv(s) && t.clients == s.clients && t.wIn == s.wIn && t.h.delivered == s.h.delivered
    ensures OriginInv(t)
  {
  }

  lemma NoneWithin(delivered: seq<InMessage>)
    ensures Within([], delivered)
  {
  }

  /** Every step but three keeps the deliveries, and what a live client inherited when it was accepted. */
  lemma MarksKept(s: Sys, step: Step)
    requires Enabled(s, step) && !step.Accept? && !step.DeliverReply?
    ensures var t := Next(s, step);
            && t.h.delivered == s.h.delivered
            && (forall x :: x in t.clients ==> x in s.clients && SameMarks(s.clients[x], t.clients[x]))
            && (!step.LoadClient? && !step.Drop? && !step.DrainWIn? ==> t.wIn == s.wIn)
  {
    hide For, Keep, KeepGens, Hit, HitGens, Parse, DecodedInput, Forwarded, NextId, Tagged, FirstFor, LinkReceive,
      LinkLoad, LinkSend, Unread;
  }

  lemma OriginStep(s: Sys, step: Step)
    requires OriginInv(s) && Enabled(s, step)
    ensures OriginInv(Next(s, step))
  {
    hide OriginInv, Within, For, Keep, KeepGens, Hit, HitGens, DecodedOutput, AnsweredAll, FirstFor, Answers,
      LinkLoad, SameMarks;
    var t := Next(s, step);
    match step {
      case Accept(socket) => AcceptOrigin(s, socket);
      case DeliverReply =>
        var reply := DecodedOutput(s.proc.reply);
        var out := AnsweredAll(Hit(s.mappings, ById(Unsigned64(reply.invokeid))), reply);
        DeliverOrigin(s, out);
        SameOrigin(s.(wIn := s.wIn + out, h := s.h.(delivered := s.h.delivered + out)), t);
      case LoadClient(socket) =>
        TakenOrigin(s, FirstFor(socket, s.wIn));
        KeptOrigin(s, step);
      case Drop(i) =>
        TakenOrigin(s, i);
        KeptOrigin(s, step);
      case DrainWIn =>
        NoneWithin(s.h.delivered);
        KeptOrigin(s, step);
      case _ =>
        QueueOrigin(s);
        KeptOrigin(s, step);
    }
  }

  lemma KeptOrigin(s: Sys, step: Step)
    requires OriginInv(s) && Enabled(s, step) && !step.Accept? && !step.DeliverReply?
    requires step.LoadClient? || step.Drop? || step.DrainWIn? ==> Within(Next(s, step).wIn, s.h.delivered)
    ensures OriginInv(Next(s, step))
  {
    hide Within, For, Next, OriginInv, SameMarks;
    MarksKept(s, step);
    QueueOrigin(s);
    OriginsKept(s, Next(s, step));
  }

  lemma TakenOrigin(s: Sys, i: nat)
    requires OriginInv(s) && i < |s.wIn|
    ensures Within(s.wIn[..i] + s.wIn[i + 1..], s.h.delivered)
  {
    hide Within;
    WithinLess(s.wIn, s.h.delivered, i);
  }

  lemma QueueOrigin(s: Sys)
    requires OriginInv(s)
    ensures Within(s.wIn, s.h.delivered)
  {
  }

  // ---------------------------------------------------------------- how the mappings change

  /** Every step but the mapping of a request only removes mappings. */
  lemma MappingsKept(s: Sys, step: Step) returns (k: Key)
    requires !(step.MapRequest? && s.proc.Requesting?)
    ensures Next(s, step).mappings == Keep(s.mappings, k)
  {
    hide Keep, KeepGens, HitGens, Hit, DecodedOutput, AnsweredAll, Answers, Parse, Tagged, For, FirstFor;
    k := BySockets({});
    KeepAll(s.mappings);
    if Enabled(s, step) {
      match step {
        case Close(socket) => k := BySockets({socket});
        case ClearMappings(socket) => k := BySockets({socket});
        case DeliverReply => k := ById(Unsigned64(DecodedOutput(s.proc.reply).invokeid));
        case _ =>
      }
    }
  }

  lemma Mapped(s: Sys)
    requires s.proc.Requesting? && |s.h.gens| == |s.mappings|
    ensures var t, m := Next(s, MapRequest), s.proc.request;
            && t.mappings == s.mappings +
               [Mapping(m.socket, Unsigned64(DecodedInput(m.pdu).invokeid), NextId(s.counter))]
            && t.clients == s.clients
  {
    hide DecodedInput, NextId, Forwarded;
  }

  // ---------------------------------------------------------------- every run

  lemma InvStep(s: Sys, step: Step)
    requires Inv(s)
    ensures Inv(Next(s, step))
  {
    hide IdsInv, SourcesInv, ForwardsInv, AnswersInv, RepliesInv, TurnsInv, LinksInv, FlowInv, OriginInv;
    if Enabled(s, step) {
      IdsStep(s, step);
      SourcesStep(s, step);
      ForwardsStep(s, step);
      AnswersStep(s, step);
      RepliesStep(s, step);
      TurnsStep(s, step);
      LinksStep(s, step);
      FlowStep(s, step);
      OriginStep(s, step);
    } else {
      Disabled(s, step);
    }
  }

  lemma Disabled(s: Sys, step: Step)
    requires !Enabled(s, step)
    ensures Next(s, step) == s
  {
  }

  /** The invariant holds after any sequence of steps, in whatever order the threads and the network take them. */
  lemma {:induction false} InvAlways(steps: seq<Step>)
    ensures Inv(Run(INIT, steps))
  {
    hide Inv, Next;
    if steps == [] {
      InvInit();
    } else {
      InvAlways(steps[..|steps| - 1]);
      InvStep(Run(INIT, steps[..|steps| - 1]), steps[|steps| - 1]);
    }
  }

  lemma InvInit()
    ensures Inv(INIT)
  {
    hide LinkOk, Parse, ClientFlow, OriginOk, Forwarded, MappingOf, AnswerOk;
    FreshLinkOk();
    assert INIT.h.arrived[0..] == [] && INIT.h.replies[0..] == [] && INIT.h.forwarded[0..] == [];
  }
}

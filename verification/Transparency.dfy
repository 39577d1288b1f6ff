/** What the clients and the server of the multiplexer observe, in every reachable state. */
module Transparency {
  import opened Bytes
  import opened Per
  import opened Messages
  import opened Pdus
  import opened Framing
  import opened Relay
  import opened MuxerSystem
  import opened MuxerInvariant

  lemma ReachableInv(s: Sys)
    requires Reachable(s)
    ensures Inv(s)
  {
    hide Inv, Run;
    var steps :| s == Run(INIT, steps);
    InvAlways(steps);
  }

  // ---------------------------------------------------------------- generated ids

  /** Two requests get the same id exactly when a multiple of 32767 requests lies between them. */
  lemma IdsRepeat(j: nat, k: nat)
    ensures IdOf(j) == IdOf(k) <==> (k - j) % MAX_INVOKEID == 0
  {
    var q, r := k / MAX_INVOKEID - j / MAX_INVOKEID, k % MAX_INVOKEID - j % MAX_INVOKEID;
    assert k - j == MAX_INVOKEID * q + r;
  }

  /** The ids are 1 to 32767 in turn: the first request gets 1, and the counter goes from each id to the next. */
  lemma IdsInTurn(k: nat)
    ensures IdOf(k) == k % 32767 + 1 && NextId(IdOf(k)) == IdOf(k + 1)
    ensures IdOf(0) == NextId(0) == 1 && IdOf(32766) == 32767 && IdOf(32767) == 1
  {
  }

  /** Any 32767 consecutive requests get pairwise distinct ids, across the wrap-around of the counter. */
  lemma IdWindow(j: nat, k: nat)
    requires j < k < j + MAX_INVOKEID
    ensures IdOf(j) != IdOf(k)
  {
    IdsRepeat(j, k);
  }

  /** Every outstanding request was issued fewer than 32767 generations ago. */
  predicate InWindow(s: Sys) {
    forall i :: 0 <= i < |s.h.gens| ==> s.h.gens[i] + MAX_INVOKEID >= |s.h.issued|
  }

  predicate Distinct(ms: seq<Mapping>) {
    forall i, j :: 0 <= i < j < |ms| ==> ms[i].generated != ms[j].generated
  }

  predicate DistinctIds(s: Sys) {
    Distinct(s.mappings)
  }

  lemma WindowDistinct(s: Sys)
    requires Reachable(s) && InWindow(s)
    ensures DistinctIds(s)
  {
    ReachableInv(s);
    hide DecodedInput, IdOf;
    forall i, j | 0 <= i < j < |s.mappings| ensures s.mappings[i].generated != s.mappings[j].generated {
      IdWindow(s.h.gens[i], s.h.gens[j]);
    }
  }

  lemma {:induction false} HitIsAll(ms: seq<Mapping>, k: Key)
    ensures forall m :: m in Hit(ms, k) <==> m in ms && Hits(m, k)
  {
    if ms != [] {
      HitIsAll(ms[..|ms| - 1], k);
      assert ms == ms[..|ms| - 1] + [ms[|ms| - 1]];
    }
  }

  lemma {:induction false} KeepIsRest(ms: seq<Mapping>, k: Key)
    ensures forall m :: m in Keep(ms, k) <==> m in ms && !Hits(m, k)
  {
    if ms != [] {
      KeepIsRest(ms[..|ms| - 1], k);
      assert ms == ms[..|ms| - 1] + [ms[|ms| - 1]];
    }
  }

  lemma {:induction false} HitNone(ms: seq<Mapping>, k: Key)
    requires forall i :: 0 <= i < |ms| ==> !Hits(ms[i], k)
    ensures Hit(ms, k) == [] && Keep(ms, k) == ms
  {
    hide Hits;
    if ms != [] {
      var n := |ms| - 1;
      HitNone(ms[..n], k);
      assert Keep(ms, k) == ms[..n] + [ms[n]];
      assert Hit(ms, k) == [] + [];
    }
  }

  lemma {:induction false} HitOne(ms: seq<Mapping>, k: Key, i: nat)
    requires i < |ms| && Hits(ms[i], k)
    requires forall j :: 0 <= j < |ms| && j != i ==> !Hits(ms[j], k)
    ensures Hit(ms, k) == [ms[i]] && Keep(ms, k) == ms[..i] + ms[i + 1..]
  {
    hide Hits;
    var n := |ms| - 1;
    var t := ms[..n];
    if i == n {
      HitNone(t, k);
      assert ms[i + 1..] == [] && [] + [ms[n]] == [ms[n]];
    } else {
      HitOne(t, k, i);
      LastStays(ms, i);
    }
  }

  lemma LastStays<X>(s: seq<X>, i: nat)
    requires i < |s| - 1
    ensures var n := |s| - 1;
            s[..n][..i] + s[..n][i + 1..] + [s[n]] == s[..i] + s[i + 1..] && [s[i]] + [] == [s[i]]
  {
  }

  lemma {:induction false} HitTwo(ms: seq<Mapping>, k: Key, i: nat, j: nat)
    requires i < j < |ms| && Hits(ms[i], k) && Hits(ms[j], k)
    ensures |Hit(ms, k)| >= 2
  {
    var n := |ms| - 1;
    if j < n {
      HitTwo(ms[..n], k, i, j);
    } else {
      HitIsAll(ms[..n], k);
      assert ms[..n][i] in Hit(ms[..n], k);
    }
  }

  /** No reply can reach more than one client exactly when the outstanding ids are distinct. */
  lemma OneClientExactly(s: Sys)
    ensures DistinctIds(s) <==> forall id: uint64 :: |Hit(s.mappings, ById(id))| <= 1
  {
    hide Hit;
    if DistinctIds(s) {
      forall id: uint64 ensures |Hit(s.mappings, ById(id))| <= 1 {
        var k := ById(id);
        if i :| 0 <= i < |s.mappings| && Hits(s.mappings[i], k) {
          HitOne(s.mappings, k, i);
        } else {
          HitNone(s.mappings, k);
        }
      }
    } else {
      var i, j :| 0 <= i < j < |s.mappings| && s.mappings[i].generated == s.mappings[j].generated;
      HitTwo(s.mappings, ById(s.mappings[i].generated), i, j);
    }
  }

  /** No two outstanding requests were issued a multiple of 32767 requests apart. */
  predicate NoneAligned(gens: seq<nat>) {
    forall i, j :: 0 <= i < j < |gens| ==> (gens[j] - gens[i]) % MAX_INVOKEID != 0
  }

  /**
   * In every reachable state the outstanding ids are distinct exactly when no two outstanding requests were
   * issued a multiple of 32767 apart.
   */
  lemma DistinctIdsExactly(s: Sys)
    requires Reachable(s)
    ensures DistinctIds(s) <==> NoneAligned(s.h.gens)
  {
    hide Inv, IdsInv, Reachable;
    ReachableInv(s);
    IdsOf(s);
    hide *;
    AlignedExactly(s);
  }

  lemma AlignedExactly(s: Sys)
    requires IdsInv(s)
    ensures DistinctIds(s) <==> NoneAligned(s.h.gens)
  {
    hide IdsInv;
    SameLength(s);
    forall i, j | 0 <= i < j < |s.mappings|
      ensures s.mappings[i].generated == s.mappings[j].generated <==> (s.h.gens[j] - s.h.gens[i]) % MAX_INVOKEID == 0
    {
      SameId(s, i, j);
    }
  }

  lemma SameLength(s: Sys)
    requires IdsInv(s)
    ensures |s.mappings| == |s.h.gens|
  {
  }

  lemma SameId(s: Sys, i: nat, j: nat)
    requires IdsInv(s) && i < j < |s.mappings| && |s.mappings| == |s.h.gens|
    ensures s.mappings[i].generated == s.mappings[j].generated <==> (s.h.gens[j] - s.h.gens[i]) % MAX_INVOKEID == 0
  {
    hide DecodedInput, IdOf;
    IdsRepeat(s.h.gens[i], s.h.gens[j]);
  }

  /** So whether some reply would reach more than one client depends only on which requests are outstanding. */
  lemma OneClientByAge(s: Sys)
    requires Reachable(s)
    ensures (forall id: uint64 :: |Hit(s.mappings, ById(id))| <= 1) <==> NoneAligned(s.h.gens)
  {
    hide Hit, NoneAligned, DistinctIds, Reachable;
    DistinctIdsExactly(s);
    OneClientExactly(s);
  }

  /** The request that is about to be mapped gets the id of one that is still outstanding. */
  predicate Collides(s: Sys, step: Step) {
    && step.MapRequest? && s.proc.Requesting?
    && !forall i :: 0 <= i < |s.h.gens| ==> (|s.h.issued| - s.h.gens[i]) % MAX_INVOKEID != 0
  }

  /**
   * Distinctness is lost at exactly one kind of step: mapping a request while one that was issued a multiple
   * of 32767 requests earlier is still outstanding.
   */
  lemma DistinctIdsStep(s: Sys, step: Step)
    requires IdsInv(s) && DistinctIds(s)
    ensures DistinctIds(Next(s, step)) <==> !Collides(s, step)
  {
    hide Keep, Tracks, Distinct, DecodedInput, NextId, IdOf, Next, IdsInv;
    if step.MapRequest? && s.proc.Requesting? {
      MapDistinct(s);
    } else {
      var k := MappingsKept(s, step);
      KeepDistinct(s.mappings, k);
    }
  }

  lemma {:induction false} KeepDistinct(ms: seq<Mapping>, k: Key)
    requires Distinct(ms)
    ensures Distinct(Keep(ms, k))
    decreases |ms|
  {
    hide Hits;
    if ms != [] {
      var n := |ms| - 1;
      var rest := Keep(ms[..n], k);
      KeepDistinct(ms[..n], k);
      KeepIsRest(ms[..n], k);
      forall i | 0 <= i < |rest| ensures rest[i].generated != ms[n].generated {
        assert rest[i] in ms[..n];
      }
    }
  }

  lemma DistinctMore(ms: seq<Mapping>, m: Mapping)
    requires Distinct(ms)
    ensures Distinct(ms + [m]) <==> forall i :: 0 <= i < |ms| ==> ms[i].generated != m.generated
  {
    var more := ms + [m];
    assert forall i :: 0 <= i < |ms| ==> more[i] == ms[i];
    assert more[|ms|] == m;
  }

  lemma MapDistinct(s: Sys)
    requires IdsInv(s) && DistinctIds(s) && s.proc.Requesting?
    ensures DistinctIds(Next(s, MapRequest)) <==> !Collides(s, MapRequest)
  {
    hide *;
    MappedId(s);
    var t, ms := Next(s, MapRequest), s.mappings;
    var m := t.mappings[|ms|];
    DistinctIn(s);
    DistinctIn(t);
    DistinctMore(ms, m);
    NoneSame(s);
    CollidesWhen(s);
  }

  lemma DistinctIn(s: Sys)
    ensures DistinctIds(s) <==> Distinct(s.mappings)
  {
  }

  lemma CollidesWhen(s: Sys)
    requires s.proc.Requesting?
    ensures Collides(s, MapRequest) <==>
            !forall i :: 0 <= i < |s.h.gens| ==> (|s.h.issued| - s.h.gens[i]) % MAX_INVOKEID != 0
  {
  }

  lemma MappedId(s: Sys)
    requires IdsInv(s) && s.proc.Requesting?
    ensures var t, n := Next(s, MapRequest), |s.mappings|;
            |t.mappings| == n + 1 && t.mappings == s.mappings + [t.mappings[n]]
              && t.mappings[n].generated == IdOf(|s.h.issued|)
  {
    SameLength(s);
    hide IdsInv, NextId, IdOf, DecodedInput, Next;
    Mapped(s);
    MapIds(s);
  }

  lemma NoneSame(s: Sys)
    requires IdsInv(s)
    ensures |s.mappings| == |s.h.gens|
    ensures (forall i :: 0 <= i < |s.mappings| ==> s.mappings[i].generated != IdOf(|s.h.issued|)) <==>
            (forall i :: 0 <= i < |s.h.gens| ==> (|s.h.issued| - s.h.gens[i]) % MAX_INVOKEID != 0)
  {
    SameLength(s);
    hide IdsInv, IdOf;
    forall i | 0 <= i < |s.mappings|
      ensures s.mappings[i].generated == IdOf(|s.h.issued|) <==> (|s.h.issued| - s.h.gens[i]) % MAX_INVOKEID == 0
    {
      SameIdNext(s, i);
    }
  }

  lemma SameIdNext(s: Sys, i: nat)
    requires IdsInv(s) && i < |s.mappings| == |s.h.gens|
    ensures s.mappings[i].generated == IdOf(|s.h.issued|) <==> (|s.h.issued| - s.h.gens[i]) % MAX_INVOKEID == 0
  {
    hide DecodedInput, IdOf;
    IdsRepeat(s.h.gens[i], |s.h.issued|);
  }

  /**
   * Over a whole run: the outstanding ids stay distinct exactly as long as no request is mapped while one that
   * was issued a multiple of 32767 requests earlier is outstanding.
   */
  lemma {:induction false} DistinctIdsThroughout(steps: seq<Step>)
    ensures (forall n :: 0 <= n <= |steps| ==> DistinctIds(Run(INIT, steps[..n]))) <==>
            (forall n :: 0 <= n < |steps| ==> !Collides(Run(INIT, steps[..n]), steps[n]))
    decreases |steps|
  {
    hide Next, Run, Collides, Inv, Distinct;
    if steps == [] {
      Initially();
      assert steps[..0] == [];
    } else {
      var m := |steps| - 1;
      var init := steps[..m];
      DistinctIdsThroughout(init);
      assert forall n :: 0 <= n <= m ==> init[..n] == steps[..n];
      assert steps[..|steps|] == steps;
      InvAlways(init);
      RunLast(steps);
      if DistinctIds(Run(INIT, init)) {
        IdsOf(Run(INIT, init));
        DistinctIdsStep(Run(INIT, init), steps[m]);
      }
    }
  }

  lemma Initially()
    ensures Run(INIT, []) == INIT && DistinctIds(INIT)
  {
  }

  lemma RunLast(steps: seq<Step>)
    requires steps != []
    ensures Run(INIT, steps) == Next(Run(INIT, steps[..|steps| - 1]), steps[|steps| - 1])
  {
  }

  lemma IdsOf(s: Sys)
    requires Inv(s)
    ensures IdsInv(s)
  {
  }

  // ---------------------------------------------------------------- one reply

  /** What the client of request `g` should see of a reply. */
  function Restored(s: Sys, g: nat, reply: Output): Output
    requires g < |s.h.issued|
  {
    Output(DecodedInput(s.h.issued[g].pdu).invokeid, reply.command, reply.result)
  }

  lemma AnsweredDecodes(issued: seq<InMessage>, g: nat, reply: Output)
    requires g < |issued| && OutputValid(reply)
    ensures var d := Answered(MappingOf(issued, g), reply);
            && d.socket == issued[g].socket
            && DecodedOutput(d.pdu) == Output(DecodedInput(issued[g].pdu).invokeid, reply.command, reply.result)
  {
    hide DecodedInput, DecodedOutput, OutputPdu, IdOf, Unsigned64;
    var id := DecodedInput(issued[g].pdu).invokeid;
    WrapFits(id);
    OutputPduRoundTrip(reply.(invokeid := id));
  }

  /** The effect of the step that routes a reply. */
  lemma Delivery(s: Sys)
    requires |s.h.gens| == |s.mappings| && s.proc.Replying?
    ensures var t, reply := Next(s, DeliverReply), DecodedOutput(s.proc.reply);
            var k := ById(Unsigned64(reply.invokeid));
            var out := AnsweredAll(Hit(s.mappings, k), reply);
            && t.wIn == s.wIn + out && t.h.delivered == s.h.delivered + out && t.proc == Idle
            && t.mappings == Keep(s.mappings, k) && |t.h.gens| == |t.mappings|
            && t.clients == s.clients && t.rIn == s.rIn && t.rOut == s.rOut && t.wOut == s.wOut
            && t.server == s.server && t.locked == s.locked && t.h.issued == s.h.issued
  {
    hide DecodedOutput, Keep, Hit, KeepGens, HitGens, AnsweredAll, Answers;
  }

  lemma TheOnlyHit(s: Sys, i: nat, id: uint64)
    requires IdsInv(s) && DistinctIds(s) && i < |s.h.gens| && id == IdOf(s.h.gens[i])
    ensures s.h.gens[i] < |s.h.issued| && Hit(s.mappings, ById(id)) == [MappingOf(s.h.issued, s.h.gens[i])]
    ensures i < |s.mappings| && Keep(s.mappings, ById(id)) == s.mappings[..i] + s.mappings[i + 1..]
  {
    hide DecodedInput, IdOf, Keep, Hit;
    forall j | 0 <= j < |s.mappings| && j != i ensures !Hits(s.mappings[j], ById(id)) {
      assert s.mappings[j].generated != s.mappings[i].generated;
    }
    HitOne(s.mappings, ById(id), i);
  }

  /**
   * A reply that carries the id of an outstanding request, when no two outstanding requests share an id
   * (which `WindowDistinct` gives for recent ones and `OneClientExactly` shows to be needed), goes to the
   * socket of that request and to no other, decodes there to the original id with command and result
   * unchanged, and consumes exactly that mapping.
   */
  lemma ReplyReachesItsClient(s: Sys, i: nat)
    requires Reachable(s) && s.proc.Replying? && DistinctIds(s) && i < |s.h.gens|
    requires Unsigned64(DecodedOutput(s.proc.reply).invokeid) == IdOf(s.h.gens[i])
    ensures var t, g := Next(s, DeliverReply), s.h.gens[i];
            && g < |s.h.issued| && i < |s.mappings|
            && |t.wIn| == |s.wIn| + 1 && t.wIn[..|s.wIn|] == s.wIn
            && t.wIn[|s.wIn|].socket == s.h.issued[g].socket
            && DecodedOutput(t.wIn[|s.wIn|].pdu) == Restored(s, g, DecodedOutput(s.proc.reply))
            && t.mappings == s.mappings[..i] + s.mappings[i + 1..]
            && t.clients == s.clients && t.rIn == s.rIn && t.rOut == s.rOut && t.wOut == s.wOut
  {
    hide DistinctIds, DecodedInput, DecodedOutput, IdOf, Keep, Hit, Answered, MappingOf, IdsInv, SourcesInv,
      ForwardsInv, AnswersInv, RepliesInv, LinksInv, FlowInv, OriginInv, Next, Unsigned64;
    ReachableInv(s);
    SameLength(s);
    Delivery(s);
    var reply := DecodedOutput(s.proc.reply);
    TheOnlyHit(s, i, IdOf(s.h.gens[i]));
    AnsweredDecodes(s.h.issued, s.h.gens[i], reply);
  }

  /** A reply with an id that no outstanding request has reaches nobody and changes no mapping. */
  lemma UnknownReplyIsDropped(s: Sys)
    requires Reachable(s) && s.proc.Replying?
    requires forall i :: 0 <= i < |s.h.gens| ==> Unsigned64(DecodedOutput(s.proc.reply).invokeid) != IdOf(s.h.gens[i])
    ensures var t := Next(s, DeliverReply);
            t.wIn == s.wIn && t.mappings == s.mappings && t.clients == s.clients
  {
    hide DecodedInput, DecodedOutput, IdOf, Keep, Hit, SourcesInv, ForwardsInv, AnswersInv, RepliesInv, LinksInv,
      FlowInv, OriginInv, Next, Unsigned64;
    ReachableInv(s);
    SameLength(s);
    Delivery(s);
    HitNone(s.mappings, ById(Unsigned64(DecodedOutput(s.proc.reply).invokeid)));
  }

  // ---------------------------------------------------------------- whole streams

  /**
   * What the server reads from the octets sent to it is an initial part of the requests forwarded to it,
   * in the order they were issued, each with its own id and its command unchanged.
   */
  lemma ServerSeesRequests(s: Sys, i: nat)
    requires Reachable(s) && i < |Parse(s.server.sent).pdus|
    ensures var p, k := Parse(s.server.sent).pdus[i], s.h.forwardedBase + i;
            && k < |s.h.issued|
            && DecodedInput(p) == Input(IdOf(k), DecodedInput(s.h.issued[k].pdu).command)
  {
    ReachableInv(s);
    var k := s.h.forwardedBase + i;
    ServerReads(s, i);
    hide *;
    ForwardedDecodes(s.h.issued[k].pdu, k);
  }

  lemma ServerReads(s: Sys, i: nat)
    requires Inv(s) && i < |Parse(s.server.sent).pdus|
    ensures var k := s.h.forwardedBase + i;
            k < |s.h.issued| && Parse(s.server.sent).pdus[i] == Forwarded(s.h.issued[k].pdu, IdOf(k))
  {
    hide Parse, IdOf, Forwarded, IdsInv, SourcesInv, AnswersInv, RepliesInv, OriginInv, ClientFlow, Loadable;
    SentIsPrefix(s.server);
    var k := s.h.forwardedBase + i;
    assert s.h.forwarded[s.h.forwardedBase..][i] == s.h.forwarded[k];
  }

  /** What goes on to the server decodes to the new id and the client's command. */
  lemma ForwardedDecodes(request: Pdu, k: nat)
    ensures DecodedInput(Forwarded(request, IdOf(k))) == Input(IdOf(k), DecodedInput(request).command)
  {
    hide DecodedInput, InputPdu, IdOf;
    WrapFits(IdOf(k));
    InputPduRoundTrip(DecodedInput(request).(invokeid := IdOf(k)));
  }

  /**
   * No request is invented or reordered on its way to the server, and only a cleanup loses one. Of the requests
   * that ever arrived, each one that has left its queue was either thrown away by a cleanup or given an id, the
   * last one perhaps not yet, in the order of their arrival; the others wait. What was given an id was queued for
   * the server under that id, the last one perhaps not yet; what was queued for it since its buffers were last
   * reset was loaded or still waits.
   */
  lemma RequestsConserved(s: Sys)
    requires Reachable(s)
    ensures s.h.taken <= |s.h.arrived| && s.rIn == s.h.arrived[s.h.taken..]
    ensures |s.h.froms| == |s.h.issued| + (if s.proc.Requesting? then 1 else 0) && Increasing(s.h.froms)
    ensures forall k :: 0 <= k < |s.h.issued| ==>
              s.h.froms[k] < |s.h.arrived| && s.h.issued[k] == s.h.arrived[s.h.froms[k]]
    ensures s.proc.Requesting? ==>
              var k := |s.h.issued|; s.h.froms[k] < |s.h.arrived| && s.proc.request == s.h.arrived[s.h.froms[k]]
    ensures forall p: nat :: p in s.h.froms ==> p < s.h.taken && p !in s.h.discarded
    ensures forall p: nat :: p < s.h.taken && p !in s.h.discarded ==> p in s.h.froms
    ensures |s.h.issued| == |s.h.forwarded| + (if s.proc.Forwarding? then 1 else 0)
    ensures forall k :: 0 <= k < |s.h.forwarded| ==>
              DecodedInput(s.h.forwarded[k]) == Input(IdOf(k), DecodedInput(s.h.issued[k].pdu).command)
    ensures s.h.forwardedBase <= |s.h.forwarded| && s.server.loaded + s.wOut == s.h.forwarded[s.h.forwardedBase..]
  {
    ReachableInv(s);
    hide DecodedInput, IdOf, IdsInv, AnswersInv, RepliesInv, OriginInv, ClientFlow, LinksInv, Forwarded;
    forall k | 0 <= k < |s.h.forwarded|
      ensures DecodedInput(s.h.forwarded[k]) == Input(IdOf(k), DecodedInput(s.h.issued[k].pdu).command)
    {
      ForwardedDecodes(s.h.issued[k].pdu, k);
    }
  }

  /**
   * The counterpart for what the server sends: no reply is lost on reception, and only a cleanup throws one away. Of
   * the replies that ever arrived, each one that has left its queue was either thrown away by a cleanup or taken to
   * be routed, in the order of their arrival; the others wait. The one in progress is the last one taken, and what
   * was delivered answers replies that were taken, in that order.
   */
  lemma RepliesConserved(s: Sys)
    requires Reachable(s)
    ensures s.h.handled <= |s.h.replies| && s.rOut == s.h.replies[s.h.handled..]
    ensures forall j, k :: 0 <= j < k < |s.h.routes| ==> s.h.routes[j] < s.h.routes[k]
    ensures forall p: nat :: p in s.h.routes ==> p < s.h.handled && p !in s.h.thrown
    ensures forall p: nat :: p < s.h.handled && p !in s.h.thrown ==> p in s.h.routes
    ensures forall p: nat :: p in s.h.thrown ==> p < s.h.handled
    ensures s.proc.Replying? ==>
              var n := |s.h.routes|;
              n > 0 && s.h.routes[n - 1] < |s.h.replies| && s.proc.reply == s.h.replies[s.h.routes[n - 1]]
    ensures |s.h.answers| == |s.h.delivered|
    ensures forall i :: 0 <= i < |s.h.answers| ==>
              var a := s.h.answers[i];
              1 <= a.turn <= |s.h.routes| && s.h.routes[a.turn - 1] < |s.h.replies|
              && a.reply == s.h.replies[s.h.routes[a.turn - 1]]
    ensures forall i, j :: 0 <= i < j < |s.h.answers| ==> s.h.answers[i].turn <= s.h.answers[j].turn
  {
    ReachableInv(s);
    hide IdsInv, SourcesInv, ForwardsInv, LinksInv, FlowInv, OriginInv, AnswerOk;
    assert forall i :: 0 <= i < |s.h.answers| ==> TurnOk(s.h, s.h.answers[i]);
  }

  /**
   * The replies that the server framed since its buffers were last reset are the last ones that arrived, in order:
   * `repliesBase` moves only when a cleanup begins (`Cleanups.BasesStep`).
   */
  lemma RepliesInOrder(s: Sys)
    requires Reachable(s)
    ensures s.h.repliesBase <= |s.h.replies| && Parse(s.server.received).pdus == s.h.replies[s.h.repliesBase..]
  {
    ReachableInv(s);
    hide Parse, Frames, HasFrame, IdsInv, SourcesInv, ForwardsInv, AnswersInv, RepliesInv, TurnsInv, OriginInv,
      ClientFlow;
  }

  /** The bounds that `write_pdu_to_send_buffer` asserts hold of everything that waits to be loaded. */
  lemma WaitingIsLoadable(s: Sys)
    requires Reachable(s)
    ensures forall i :: 0 <= i < |s.wIn| ==> Loadable(s.wIn[i].pdu)
    ensures forall i :: 0 <= i < |s.wOut| ==> Loadable(s.wOut[i])
  {
    hide Loadable, ForwardsInv, FlowInv, IdsInv, SourcesInv, AnswersInv, RepliesInv, OriginInv, LinkOk;
    ReachableInv(s);
    forall i | 0 <= i < |s.wOut| ensures Loadable(s.wOut[i]) {
      WaitingLoadable(s, i);
    }
  }

  /** Nothing that a connection may expect was lost: it was loaded or still waits, in order. */
  predicate Whole(s: Sys, socket: int)
    requires socket in s.clients
  {
    var c, all := s.clients[socket], For(socket, s.h.delivered);
    c.base <= |all| && Owed(c, all) == c.link.loaded + For(socket, s.wIn)
  }

  /**
   * What a client reads from the octets sent to it is always an order-preserving part of what it is owed, and an
   * initial part of it unless a cleanup threw away a message that waited for it.
   */
  lemma ClientSeesDeliveries(s: Sys, socket: int)
    requires Reachable(s) && socket in s.clients
    ensures var c, all, got := s.clients[socket], For(socket, s.h.delivered), Parse(s.clients[socket].link.sent).pdus;
            && c.base <= |all| && Within(got, Owed(c, all))
            && (Whole(s, socket) ==> got <= Owed(c, all))
  {
    ReachableInv(s);
    ClientReads(s, socket);
  }

  lemma ClientReads(s: Sys, socket: int)
    requires Inv(s) && socket in s.clients
    ensures var c, all, got := s.clients[socket], For(socket, s.h.delivered), Parse(s.clients[socket].link.sent).pdus;
            && c.base <= |all| && Within(got, Owed(c, all))
            && (Whole(s, socket) ==> got <= Owed(c, all))
  {
    hide Parse, For, Within, Owed, IdsInv, SourcesInv, ForwardsInv, AnswersInv, RepliesInv, OriginInv;
    assert ClientFlow(s, socket);
    var c := s.clients[socket];
    SentIsPrefix(c.link);
    var got, seen := Parse(c.link.sent).pdus, c.link.loaded + For(socket, s.wIn);
    WithinPrefix(seen, Owed(c, For(socket, s.h.delivered)), |got|);
    assert seen[..|got|] == got;
  }

  /** Some request of this client that has been answered. */
  ghost predicate AnswersRequestOf(s: Sys, socket: int, p: Pdu, a: Answer) {
    && a in s.h.answers && a.gen < |s.h.issued|
    && s.h.issued[a.gen].socket == socket
    && a.reply in s.h.replies
    && Unsigned64(DecodedOutput(a.reply).invokeid) == IdOf(a.gen)
    && DecodedOutput(p) == Restored(s, a.gen, DecodedOutput(a.reply))
  }

  /**
   * All that a client reads, from its predecessors' leftovers on, is an order-preserving part of what was delivered to
   * its socket.
   */
  lemma ReadsWithinDeliveries(s: Sys, socket: int)
    requires Reachable(s) && socket in s.clients
    ensures Within(Parse(s.clients[socket].link.sent).pdus, For(socket, s.h.delivered))
  {
    ReachableInv(s);
    ClientSeesDeliveries(s, socket);
    Origin(s, socket);
    var c, all := s.clients[socket], For(socket, s.h.delivered);
    hide *;
    OwedWithin(c, all);
    WithinTrans(Parse(c.link.sent).pdus, Owed(c, all), all);
  }

  lemma Origin(s: Sys, socket: int)
    requires Inv(s) && socket in s.clients
    ensures var c, all := s.clients[socket], For(socket, s.h.delivered);
            c.base <= |all| && Within(c.inherited, all[..c.base])
  {
    hide For, Within, IdsInv, SourcesInv, ForwardsInv, LinksInv, FlowInv, RepliesInv, AnswersInv;
    assert OriginOk(s.clients[socket], For(socket, s.h.delivered));
  }

  lemma OwedWithin(c: Client, all: seq<Pdu>)
    requires c.base <= |all| && Within(c.inherited, all[..c.base])
    ensures Within(Owed(c, all), all)
  {
    hide Within;
    WithinMore(c.inherited, all[..c.base], all[c.base..]);
    assert all[..c.base] + all[c.base..] == all;
  }

  /**
   * End to end: the PDUs that a client can read from the octets sent to it correspond, in order, to answers at
   * increasing positions, hence to distinct requests (`AtMostOnce`). Each is the server's reply to a request
   * that came from its own socket, with the id that request carried and nothing else changed.
   */
  lemma EndToEnd(s: Sys, socket: int) returns (ps: seq<nat>)
    requires Reachable(s) && socket in s.clients
    ensures var got := Parse(s.clients[socket].link.sent).pdus;
            && Increasing(ps) && |ps| == |got|
            && forall i :: 0 <= i < |got| ==>
               ps[i] < |s.h.answers| && AnswersRequestOf(s, socket, got[i], s.h.answers[ps[i]])
  {
    ReachableInv(s);
    AnswersOf(s);
    ReadsWithinDeliveries(s, socket);
    hide *;
    var got := Parse(s.clients[socket].link.sent).pdus;
    ps := PositionsOf(socket, s.h.delivered, got);
    forall i | 0 <= i < |got| ensures ps[i] < |s.h.answers| && AnswersRequestOf(s, socket, got[i], s.h.answers[ps[i]]) {
      DeliveredAnswers(s, socket, got[i], ps[i]);
    }
  }

  lemma AnswersOf(s: Sys)
    requires Inv(s)
    ensures AnswersInv(s.h)
  {
  }

  /** Where the messages for a socket that make up `got` stand in the queue. */
  lemma PositionsOf(socket: int, ms: seq<InMessage>, got: seq<Pdu>) returns (ps: seq<nat>)
    requires Within(got, For(socket, ms))
    ensures Increasing(ps) && |ps| == |got| && forall i :: 0 <= i < |got| ==>
            ps[i] < |ms| && ms[ps[i]] == InMessage(socket, got[i])
  {
    hide For, Within, PlaceOf;
    var qs := WithinAt(got, For(socket, ms));
    ps := seq(|qs|, i requires 0 <= i < |qs| => PlaceOf(socket, ms, qs[i]));
    forall i, j | 0 <= i < j < |ps| ensures ps[i] < ps[j] {
      PlacesRise(socket, ms, qs[i], qs[j]);
    }
  }

  lemma DeliveredAnswers(s: Sys, socket: int, p: Pdu, d: nat)
    requires AnswersInv(s.h) && d < |s.h.delivered| && s.h.delivered[d] == InMessage(socket, p)
    ensures d < |s.h.answers| && AnswersRequestOf(s, socket, p, s.h.answers[d])
  {
    hide DecodedInput, DecodedOutput, IdOf, Answered, Unsigned64;
    var a := s.h.answers[d];
    assert AnswerOk(s.h, a, s.h.delivered[d]);
    AnsweredDecodes(s.h.issued, a.gen, DecodedOutput(a.reply));
  }

  /** No request is ever answered twice, and none that is outstanding has been answered. */
  lemma AtMostOnce(s: Sys, i: nat, j: nat)
    requires Reachable(s) && i < |s.h.answers| && j < |s.h.answers|
    ensures s.h.answers[i].gen == s.h.answers[j].gen ==> i == j
    ensures s.h.answers[i].gen !in s.h.gens
  {
    ReachableInv(s);
    assert AnswerOk(s.h, s.h.answers[i], s.h.delivered[i]);
  }

  /**
   * The requests a client framed are those that arrived from its socket since it was accepted, and requests are
   * issued in the order they arrived.
   */
  lemma RequestsInOrder(s: Sys, socket: int)
    requires Reachable(s) && socket in s.clients
    ensures var c := s.clients[socket];
            c.since <= |s.h.arrived| && Parse(c.link.received).pdus == For(socket, s.h.arrived[c.since..])
    ensures |s.h.froms| >= |s.h.issued| && Increasing(s.h.froms)
    ensures forall k :: 0 <= k < |s.h.issued| ==>
              s.h.froms[k] < |s.h.arrived| && s.h.issued[k] == s.h.arrived[s.h.froms[k]]
  {
    ReachableInv(s);
    hide Parse, For, Within, IdsInv, ForwardsInv, AnswersInv, RepliesInv, OriginInv;
    assert ClientFlow(s, socket);
  }

  /**
   * One exchange as a client sees it. If the client encoded `request`, the server reads the same command
   * under a generated id; if the server answers that id, the client reads its own id and the answer.
   */
  lemma Exchange(s: Sys, i: nat, request: Input, command: seq<byte>, result: seq<byte>)
    requires Reachable(s) && s.proc.Replying? && DistinctIds(s) && i < |s.h.gens| && s.h.gens[i] < |s.h.forwarded|
    requires InputValid(request) && SizeValid(|command|) && SizeValid(|result|)
    requires s.h.gens[i] < |s.h.issued| && s.h.issued[s.h.gens[i]].pdu == InputPdu(request)
    requires s.proc.reply == OutputPdu(Output(DecodedInput(s.h.forwarded[s.h.gens[i]]).invokeid, command, result))
    ensures var t, n := Next(s, DeliverReply), |s.wIn|;
            && DecodedInput(s.h.forwarded[s.h.gens[i]]).command == request.command
            && |t.wIn| == n + 1 && t.wIn[n].socket == s.h.issued[s.h.gens[i]].socket
            && DecodedOutput(t.wIn[n].pdu) == Output(request.invokeid, command, result)
  {
    hide DecodedInput, DecodedOutput, InputPdu, OutputPdu, IdOf, IdsInv, AnswersInv, RepliesInv, LinksInv, FlowInv,
      OriginInv, Next, DistinctIds;
    ReachableInv(s);
    var g := s.h.gens[i];
    WrapFits(IdOf(g));
    InputPduRoundTrip(request);
    InputPduRoundTrip(request.(invokeid := IdOf(g)));
    OutputPduRoundTrip(Output(IdOf(g), command, result));
    ReplyReachesItsClient(s, i);
  }

  // ---------------------------------------------------------------- when the ids run out

  const REQUEST := Input(0, [0])
  const REPLY := Output(1, [0], [0])

  lemma RunMore(steps: seq<Step>, step: Step)
    ensures Run(INIT, steps + [step]) == Next(Run(INIT, steps), step)
  {
    assert (steps + [step])[..|steps|] == steps;
  }

  /** One client that has sent `n` requests, all forwarded, none answered. */
  predicate Flooded(s: Sys, n: nat) {
    && !s.locked && 1 in s.clients && s.clients[1].link.r == [] && s.server.r == []
    && s.proc == Idle && s.rIn == [] && s.wIn == [] && s.rOut == []
    && |s.h.issued| == n && |s.h.gens| == n && s.h.delivered == []
    && forall i :: 0 <= i < n ==> s.h.gens[i] == i && s.h.issued[i].socket == 1
  }

  lemma {:induction false} Flood(n: nat) returns (steps: seq<Step>)
    ensures Flooded(Run(INIT, steps), n)
  {
    hide Run, Next;
    if n == 0 {
      steps := [] + [Accept(1)];
      RunMore([], Accept(1));
      FirstClient();
    } else {
      steps := Flood(n - 1);
      var s := Run(INIT, steps);
      var frame := Frame(InputPdu(REQUEST));
      RunMore(steps, ReceiveClient(1, frame));
      RunMore(steps + [ReceiveClient(1, frame)], TakeRequest);
      RunMore(steps + [ReceiveClient(1, frame)] + [TakeRequest], MapRequest);
      RunMore(steps + [ReceiveClient(1, frame)] + [TakeRequest] + [MapRequest], ForwardRequest);
      steps := steps + [ReceiveClient(1, frame)] + [TakeRequest] + [MapRequest] + [ForwardRequest];
      assert Tracked(s) by {
        assert Reachable(s);
        ReachableInv(s);
      }
      OneRequest(s, n - 1);
    }
  }

  predicate Tracked(s: Sys) {
    |s.h.gens| == |s.mappings|
  }

  lemma FirstClient()
    ensures Flooded(Next(Run(INIT, []), Accept(1)), 0)
  {
  }

  lemma WholeFrame(p: Pdu)
    requires Framable(p)
    ensures Parse([] + Frame(p)) == Parsed([p], []) && |Frame(p)| <= BUFFER_KSIZE
  {
    hide Parse, Frame;
    assert Frame(p) + [] == [] + Frame(p);
    ParseFrame(p, []);
    NoFrame([]);
  }

  lemma OneRequest(s: Sys, n: nat)
    requires Flooded(s, n) && Tracked(s)
    ensures Flooded(Next(Next(Next(Next(s, ReceiveClient(1, Frame(InputPdu(REQUEST)))), TakeRequest), MapRequest),
            ForwardRequest), n + 1)
  {
    hide Frame, InputPdu, Parse, DecodedInput, Forwarded;
    var p := InputPdu(REQUEST);
    WholeFrame(p);
    var a := Next(s, ReceiveClient(1, Frame(p)));
    assert a.rIn == [InMessage(1, p)] && a.clients[1].link.r == [];
    var b := Next(a, TakeRequest);
    assert b.proc == Requesting(InMessage(1, p)) && b.rIn == [];
    var c := Next(b, MapRequest);
    assert c.proc.Forwarding? && c.h.gens == s.h.gens + [n] && c.h.issued == s.h.issued + [InMessage(1, p)];
  }

  /**
   * The ids do run out: after exactly 32768 requests, all unanswered, the first and the last one share an id,
   * and a single reply to it is sent out twice.
   */
  lemma IdsCanCollide() returns (steps: seq<Step>)
    ensures var s := Run(INIT, steps);
            && |s.h.issued| == |s.h.gens| == MAX_INVOKEID + 1 && !DistinctIds(s)
            && s.proc.Replying? && s.wIn == [] && |Next(s, DeliverReply).wIn| >= 2
  {
    hide Run, Next;
    steps := Flood(MAX_INVOKEID + 1);
    var s := Run(INIT, steps);
    var frame := Frame(OutputPdu(REPLY));
    RunMore(steps, ReceiveServer(frame));
    RunMore(steps + [ReceiveServer(frame)], TakeReply);
    assert Reachable(s);
    ReachableInv(s);
    steps := steps + [ReceiveServer(frame)] + [TakeReply];
    TwoDeliveries(s);
  }

  /** A reply comes in while nothing else does, and the processing thread takes it. */
  lemma ReplyComes(s: Sys, p: Pdu)
    requires !s.locked && s.server.r == [] && s.rOut == [] && s.proc == Idle && |s.h.gens| == |s.mappings|
    requires Framable(p)
    ensures var t := Next(Next(s, ReceiveServer(Frame(p))), TakeReply);
            && t.proc == Replying(p) && !t.locked && t.server.r == [] && t.rOut == []
            && t.clients == s.clients && t.rIn == s.rIn && t.wIn == s.wIn && t.mappings == s.mappings
            && t.h.gens == s.h.gens && t.h.issued == s.h.issued && t.h.delivered == s.h.delivered
  {
    hide Frame, Parse;
    WholeFrame(p);
    var a := Next(s, ReceiveServer(Frame(p)));
    assert a.rOut == [p];
  }

  /** The only waiting message is loaded into an unused buffer and goes out whole. */
  lemma MessageRead(s: Sys, p: Pdu)
    requires |s.h.gens| == |s.mappings| && s.wIn == [InMessage(1, p)] && Framable(p)
    requires 1 in s.clients && s.clients[1].link.w == [] && s.clients[1].link.sent == []
    ensures var t := Next(Next(s, LoadClient(1)), SendClient(1, |Frame(p)|));
            && 1 in t.clients && t.h == s.h && Parse(t.clients[1].link.sent).pdus == [p]
            && t.clients[1].(link := s.clients[1].link) == s.clients[1]
            && t.clients[1].link.received == s.clients[1].link.received
  {
    hide Frame, Parse;
    WholeFrame(p);
    assert FirstFor(1, s.wIn) == 0;
    var a := Next(s, LoadClient(1));
    assert a == DoLoadClient(s, 1) && a.clients[1].link.w == Frame(p);
    hide FirstFor;
    assert Frame(p)[..|Frame(p)|] == Frame(p);
  }

  lemma TwoDeliveries(s: Sys)
    requires Flooded(s, MAX_INVOKEID + 1) && IdsInv(s)
    ensures var t := Next(Next(s, ReceiveServer(Frame(OutputPdu(REPLY)))), TakeReply);
            && |t.h.issued| == |t.h.gens| == MAX_INVOKEID + 1 && !DistinctIds(t)
            && t.proc.Replying? && t.wIn == [] && |Next(t, DeliverReply).wIn| >= 2
  {
    hide Frame, OutputPdu, DecodedOutput, DecodedInput, Hit, Keep, AnsweredAll, Next;
    var p := OutputPdu(REPLY);
    OutputPduRoundTrip(REPLY);
    ReplyComes(s, p);
    var t := Next(Next(s, ReceiveServer(Frame(p))), TakeReply);
    Delivery(t);
    assert s.mappings[0].generated == 1 && s.mappings[MAX_INVOKEID].generated == 1;
    HitTwo(s.mappings, ById(1), 0, MAX_INVOKEID);
  }

  /** A run at whose end a reply to the only outstanding request is being routed. */
  lemma AReplyArrives() returns (steps: seq<Step>)
    ensures var s := Run(INIT, steps);
            && Reachable(s) && s.proc.Replying? && DistinctIds(s) && InWindow(s) && |s.h.gens| == 1
            && Unsigned64(DecodedOutput(s.proc.reply).invokeid) == IdOf(s.h.gens[0])
  {
    hide Run, Next, DecodedOutput, DistinctIds, InWindow, Unsigned64, Frame, OutputPdu, Flooded, IdsInv, SourcesInv,
      ForwardsInv, AnswersInv, RepliesInv, LinksInv, FlowInv, OriginInv;
    steps := Flood(1);
    var s := Run(INIT, steps);
    var frame := Frame(OutputPdu(REPLY));
    RunMore(steps, ReceiveServer(frame));
    RunMore(steps + [ReceiveServer(frame)], TakeReply);
    assert Reachable(s);
    ReachableInv(s);
    steps := steps + [ReceiveServer(frame)] + [TakeReply];
    OneReply(s);
    assert Reachable(Run(INIT, steps));
  }

  lemma OneReply(s: Sys)
    requires Flooded(s, 1) && IdsInv(s)
    ensures var t := Next(Next(s, ReceiveServer(Frame(OutputPdu(REPLY)))), TakeReply);
            && t.proc.Replying? && DistinctIds(t) && InWindow(t) && |t.h.gens| == 1
            && Unsigned64(DecodedOutput(t.proc.reply).invokeid) == IdOf(t.h.gens[0])
  {
    hide Frame, OutputPdu, DecodedOutput, DecodedInput, Next;
    OutputPduRoundTrip(REPLY);
    ReplyComes(s, OutputPdu(REPLY));
  }
}

/**
 * The processing functions of `muxer/protocol.c` and the removing loop of `muxer/mapping.c`, on the linked
 * queues of the heap. Each critical section is proved to be one step of the state machine from any state.
 */
module Protocol {
  import opened Per
  import opened Messages
  import opened Pdus
  import opened Relay
  import opened MuxerSystem
  import opened Effects
  import opened Queues
  import opened Walks

  lemma OneMoreMapping(done: seq<Mapping>, todo: seq<Mapping>, k: Key)
    requires todo != []
    ensures Keep(done + [todo[0]], k) == if Hits(todo[0], k) then Keep(done, k) else Keep(done, k) + [todo[0]]
    ensures Hit(done + [todo[0]], k) == if Hits(todo[0], k) then Hit(done, k) + [todo[0]] else Hit(done, k)
    ensures (done + [todo[0]]) + todo[1..] == done + todo
  {
    var m := todo[0];
    assert (done + [m])[..|done|] == done;
    assert Keep(done, k) + [] == Keep(done, k) && Hit(done, k) + [] == Hit(done, k);
  }

  lemma NothingYet(k: Key)
    ensures Keep([], k) == [] && Hit([], k) == []
  {
  }

  /** `remove_socket_to_recv_unicast_msg_mappings_for`: frees entries of the list it walks. */
  method RemoveMappingsFor(q: Queue<Mapping>, socket: int) returns (count: nat)
    requires q.Valid()
    modifies q, q.nodes`next, q.nodes`freed
    ensures q.Valid() && Smaller(old(q.nodes), q)
    ensures q.Contents() == Keep(old(q.Contents()), BySockets({socket})) && Accounted(old(q.nodes), q)
    ensures count == |Hit(old(q.Contents()), BySockets({socket}))|
  {
    hide Walking, Keep, Hit, Distinct, Refs, Accounted;
    ghost var k, ms, ns := BySockets({socket}), q.Contents(), q.nodes;
    ghost var kept: seq<Entry<Mapping>>, rest: seq<Entry<Mapping>> := [], q.nodes;
    ghost var done: seq<Mapping>, todo: seq<Mapping> := [], ms;
    var qe := q.head;
    count := 0;
    NothingYet(k);
    SmallerSelf(q);
    WalkStart(q);
    while qe != null
      invariant q.Valid() && Walking(q, ns, kept, rest, Keep(done, k), todo, qe)
      invariant Smaller(old(q.nodes), q)
      invariant done + todo == ms && count == |Hit(done, k)|
      decreases |todo|
    {
      qe, count, kept, rest, done, todo := VisitForSocket(q, qe, socket, count, ns, kept, rest, done, todo);
    }
    WalkEnd(q, ns, kept, rest, Keep(done, k), todo);
    assert done + [] == done;
  }

  /** One turn of the loop. */
  method VisitForSocket(q: Queue<Mapping>, qe: Entry<Mapping>, socket: int, count: nat, ghost ns: seq<Entry<Mapping>>,
                        ghost kept: seq<Entry<Mapping>>, ghost rest: seq<Entry<Mapping>>, ghost done: seq<Mapping>,
                        ghost todo: seq<Mapping>)
    returns (next: Entry?<Mapping>, count': nat,
             ghost kept': seq<Entry<Mapping>>, ghost rest': seq<Entry<Mapping>>, ghost done': seq<Mapping>,
             ghost todo': seq<Mapping>)
    requires q.Valid() && Walking(q, ns, kept, rest, Keep(done, BySockets({socket})), todo, qe)
    requires count == |Hit(done, BySockets({socket}))|
    modifies q, q.nodes`next, q.nodes`freed
    ensures q.Valid() && Walking(q, ns, kept', rest', Keep(done', BySockets({socket})), todo', next)
    ensures count' == |Hit(done', BySockets({socket}))|
    ensures done' + todo' == done + todo && |todo'| < |todo|
    ensures Smaller(old(q.nodes), q)
  {
    hide Walking, Keep, Hit, Distinct, Remove;
    ghost var k := BySockets({socket});
    AtHand(q, ns, kept, rest, Keep(done, k), todo, qe);
    OneMoreMapping(done, todo, k);
    count' := count;
    if qe.ref.socket == socket {
      next := FreeBehind(q, qe, ns, kept, rest, Keep(done, k), todo);
      count' := count + 1;
      kept' := kept;
    } else {
      kept' := kept + [qe];
      next := qe.next;
    }
    done', todo', rest' := done + [todo[0]], todo[1..], rest[1..];
  }

  lemma OneMoreAnswer(w: seq<InMessage>, done: seq<Mapping>, todo: seq<Mapping>, k: Key, reply: Output)
    requires OutputValid(reply) && todo != []
    ensures w + AnsweredAll(Hit(done + [todo[0]], k), reply) ==
            if Hits(todo[0], k) then w + AnsweredAll(Hit(done, k), reply) + [Answered(todo[0], reply)]
            else w + AnsweredAll(Hit(done, k), reply)
  {
    hide Hit, Keep, AnsweredAll, Answered, Hits, OutputValid;
    OneMoreMapping(done, todo, k);
    AnsweredSnoc(Hit(done, k), todo[0], reply);
    AssocAnswers(w, AnsweredAll(Hit(done, k), reply), Answered(todo[0], reply));
  }

  lemma AnsweredSnoc(h: seq<Mapping>, m: Mapping, reply: Output)
    requires OutputValid(reply)
    ensures AnsweredAll(h + [m], reply) == AnsweredAll(h, reply) + [Answered(m, reply)]
  {
    hide Answered, OutputValid;
  }

  lemma AssocAnswers(w: seq<InMessage>, a: seq<InMessage>, m: InMessage)
    ensures w + a + [m] == w + (a + [m])
  {
  }

  /** The globals of the relay: the message queues, the mapping list and the counter. */
  class Muxer {
    const rIn: Queue<InMessage>
    const wIn: Queue<InMessage>
    const rOut: Queue<Pdu>
    const wOut: Queue<Pdu>
    const mappings: Queue<Mapping>
    var counter: uint64

    constructor ()
      ensures MatchesIn(INIT) && MatchesOut(INIT)
      ensures fresh(rIn) && fresh(wIn) && fresh(rOut) && fresh(wOut) && fresh(mappings)
    {
      rIn := new Queue();
      wIn := new Queue();
      rOut := new Queue();
      wOut := new Queue();
      mappings := new Queue();
      counter := 0;
    }

    /** What the processing of requests touches is that of the state `s`. */
    ghost predicate MatchesIn(s: Sys)
      reads this, rIn, rIn.nodes, wOut, wOut.nodes, mappings, mappings.nodes
    {
      && rIn.Valid() && wOut.Valid() && mappings.Valid()
      && Apart(rIn, wOut) && Apart(rIn, mappings) && Apart(wOut, mappings)
      && rIn.Contents() == s.rIn && wOut.Contents() == s.wOut && mappings.Contents() == s.mappings
         && counter == s.counter
      && |s.h.gens| == |s.mappings|
    }

    /** What the processing of replies touches is that of the state `s`. */
    ghost predicate MatchesOut(s: Sys)
      reads this, rOut, rOut.nodes, wIn, wIn.nodes, mappings, mappings.nodes
    {
      && rOut.Valid() && wIn.Valid() && mappings.Valid()
      && Apart(rOut, wIn) && Apart(rOut, mappings) && Apart(wIn, mappings)
      && rOut.Contents() == s.rOut && wIn.Contents() == s.wIn && mappings.Contents() == s.mappings
         && counter == s.counter
      && |s.h.gens| == |s.mappings|
    }

    lemma MatchedIn(s: Sys)
      requires MatchesIn(s)
      ensures rIn.Contents() == s.rIn && wOut.Contents() == s.wOut && mappings.Contents() == s.mappings
      ensures counter == s.counter
    {
    }

    lemma MatchedOut(s: Sys)
      requires MatchesOut(s)
      ensures rOut.Contents() == s.rOut && wIn.Contents() == s.wIn && mappings.Contents() == s.mappings
    {
    }

    /** The oldest request leaves its queue, under the lock of that queue. */
    method TakeRequest(ghost s: Sys) returns (r: Option<InMessage>, ghost t: Sys)
      requires MatchesIn(s) && s.proc == Idle
      modifies rIn, rIn.nodes`next, rIn.nodes`freed
      ensures MatchesIn(t)
      ensures if s.rIn == [] then r == None && t == s
              else r == Some(s.rIn[0]) && t == Next(s, Step.TakeRequest) && t.proc == Requesting(s.rIn[0])
      ensures rIn.Contents() == if old(rIn.Contents()) == [] then [] else old(rIn.Contents())[1..]
      ensures wOut.Contents() == old(wOut.Contents()) && mappings.Contents() == old(mappings.Contents())
    {
      hide Refs, Distinct, Next, Separate, Smaller;
      if s.rIn != [] { RequestTaken(s); }
      r := TakeFirstAside(rIn, wOut, mappings);
      t := if s.rIn == [] then s else Next(s, Step.TakeRequest);
    }

    /** `put_into_socket_to_recv_unicast_msg`, under the lock of the mapping list. */
    method PutIntoSocketToRecvUnicastMsg(socket: int, invokeid: uint64, now: int)
      requires mappings.Valid()
      modifies this`counter, mappings, mappings.nodes`next
      ensures mappings.Valid() && counter == NextId(old(counter)) == old(counter) % 32767 + 1 && Renewed(mappings)
      ensures mappings.Contents() == old(mappings.Contents()) + [Mapping(socket, invokeid, counter)]
    {
      counter := counter % MAX_INVOKEID + 1;
      PutNew(mappings, Mapping(socket, invokeid, counter), now);
    }

    /** Decode, create the mapping, re-encode with the generated id. */
    method Relabel(r: InMessage, now: int) returns (reencoded: Pdu)
      requires mappings.Valid()
      modifies this`counter, mappings, mappings.nodes`next
      ensures mappings.Valid() && counter == old(counter) % 32767 + 1 && Renewed(mappings)
      ensures mappings.Contents() == old(mappings.Contents()) +
                [Mapping(r.socket, DecodedInput(r.pdu).invokeid % 0x1_0000_0000_0000_0000, counter)]
      ensures reencoded == Forwarded(r.pdu, counter)
    {
      hide DecodedInput, InputPdu, Refs;
      var decoded := new InputType();
      var err := DecodeInPdu(decoded, r.pdu);
      PutIntoSocketToRecvUnicastMsg(r.socket, Unsigned64(decoded.invokeid), now);
      decoded.invokeid := Wrap64(counter);
      err, reencoded := EncodeInPdu(decoded);
    }

    /** The taken request gets its mapping and its new id. */
    method MapRequest(r: InMessage, now: int, ghost s: Sys) returns (p: Pdu, ghost t: Sys)
      requires MatchesIn(s) && s.proc == Requesting(r)
      modifies this`counter, mappings, mappings.nodes`next
      ensures MatchesIn(t) && t == Next(s, Step.MapRequest) && t.proc == Forwarding(p)
      ensures counter == old(counter) % 32767 + 1 && DecodedInput(p) == Input(counter, DecodedInput(r.pdu).command)
      ensures mappings.Contents() == old(mappings.Contents()) +
                [Mapping(r.socket, DecodedInput(r.pdu).invokeid % 0x1_0000_0000_0000_0000, counter)]
      ensures rIn.Contents() == old(rIn.Contents()) && wOut.Contents() == old(wOut.Contents())
    {
      hide DecodedInput, Forwarded, Refs, Distinct, Next, Separate, Renewed;
      p := RelabelAside(r, now);
      RequestMapped(s);
      ForwardedIs(r.pdu, counter);
      t := Next(s, Step.MapRequest);
    }

    /** The same beside the queues that are not touched. */
    method RelabelAside(r: InMessage, now: int) returns (reencoded: Pdu)
      requires rIn.Valid() && wOut.Valid() && mappings.Valid()
      requires Apart(rIn, wOut) && Apart(rIn, mappings) && Apart(wOut, mappings)
      modifies this`counter, mappings, mappings.nodes`next
      ensures rIn.Valid() && wOut.Valid() && mappings.Valid() && counter == old(counter) % 32767 + 1
      ensures Apart(rIn, wOut) && Apart(rIn, mappings) && Apart(wOut, mappings)
      ensures rIn.Contents() == old(rIn.Contents()) && wOut.Contents() == old(wOut.Contents())
      ensures mappings.Contents() == old(mappings.Contents()) +
                [Mapping(r.socket, DecodedInput(r.pdu).invokeid % 0x1_0000_0000_0000_0000, counter)]
      ensures reencoded == Forwarded(r.pdu, counter)
    {
      hide DecodedInput, Forwarded, Refs, Distinct;
      ghost var ns := mappings.nodes;
      reencoded := Relabel(r, now);
      GrownApart(mappings, ns, rIn);
      GrownApart(mappings, ns, wOut);
    }

    /** `put_pdu_into_w_out_messages`, under the lock of that queue. */
    method ForwardRequest(p: Pdu, now: int, ghost s: Sys) returns (ghost t: Sys)
      requires MatchesIn(s) && s.proc == Forwarding(p)
      modifies wOut, wOut.nodes`next
      ensures MatchesIn(t) && t == Next(s, Step.ForwardRequest) && t.proc == Idle
      ensures wOut.Contents() == old(wOut.Contents()) + [p]
      ensures rIn.Contents() == old(rIn.Contents()) && mappings.Contents() == old(mappings.Contents())
    {
      hide Refs, Distinct;
      ghost var ns := wOut.nodes;
      PutNew(wOut, p, now);
      GrownApart(wOut, ns, rIn);
      GrownApart(wOut, ns, mappings);
      t := Next(s, Step.ForwardRequest);
    }

    /** A request goes through three critical sections, each a step of the state machine from any state. */
    method ProcessIncomingInMessages(now: int, ghost s: Sys) returns (ghost t: Sys)
      requires MatchesIn(s) && s.proc == Idle
      modifies this`counter, rIn, rIn.nodes`next, rIn.nodes`freed, mappings, mappings.nodes`next, wOut, wOut.nodes`next
      ensures MatchesIn(t)
      ensures t == if s.rIn == [] then s
              else Next(Next(Next(s, Step.TakeRequest), Step.MapRequest), Step.ForwardRequest)
      ensures rIn.Contents() == t.rIn && wOut.Contents() == t.wOut && mappings.Contents() == t.mappings
      ensures counter == t.counter
    {
      hide Next, MatchesIn;
      var m;
      m, t := TakeRequest(s);
      match m {
        case None =>
        case Some(r) =>
          var p;
          p, t := MapRequest(r, now, t);
          t := ForwardRequest(p, now, t);
      }
      MatchedIn(t);
    }

    /** The oldest reply leaves its queue, under the lock of that queue. */
    method TakeReply(ghost s: Sys) returns (r: Option<Pdu>, ghost t: Sys)
      requires MatchesOut(s) && s.proc == Idle
      modifies rOut, rOut.nodes`next, rOut.nodes`freed
      ensures MatchesOut(t)
      ensures if s.rOut == [] then r == None && t == s
              else r == Some(s.rOut[0]) && t == Next(s, Step.TakeReply) && t.proc == Replying(s.rOut[0])
      ensures rOut.Contents() == if old(rOut.Contents()) == [] then [] else old(rOut.Contents())[1..]
      ensures wIn.Contents() == old(wIn.Contents()) && mappings.Contents() == old(mappings.Contents())
    {
      hide Refs, Distinct, Next, Separate, Smaller;
      if s.rOut != [] { ReplyTaken(s); }
      r := TakeFirstAside(rOut, wIn, mappings);
      t := if s.rOut == [] then s else Next(s, Step.TakeReply);
    }

    /** The taken reply is routed to the clients of the mappings with its id. */
    method DeliverReply(p: Pdu, now: int, ghost s: Sys) returns (ghost t: Sys)
      requires MatchesOut(s) && s.proc == Replying(p)
      modifies wIn, wIn.nodes`next, mappings, mappings.nodes`next, mappings.nodes`freed
      ensures MatchesOut(t) && t == Next(s, Step.DeliverReply) && t.proc == Idle
      ensures rOut.Contents() == t.rOut && wIn.Contents() == t.wIn && mappings.Contents() == t.mappings
    {
      hide DecodedOutput, Refs, Distinct, Keep, Hit, AnsweredAll, Separate, Next;
      Route(p, now);
      DeliverStep(s);
      t := Next(s, Step.DeliverReply);
    }

    /** The reply is decoded and routed, and the queue of replies is not touched. */
    method Route(p: Pdu, now: int)
      requires rOut.Valid() && wIn.Valid() && mappings.Valid()
      requires Apart(rOut, wIn) && Apart(rOut, mappings) && Apart(wIn, mappings)
      modifies wIn, wIn.nodes`next, mappings, mappings.nodes`next, mappings.nodes`freed
      ensures rOut.Valid() && wIn.Valid() && mappings.Valid() && rOut.Contents() == old(rOut.Contents())
      ensures Apart(rOut, wIn) && Apart(rOut, mappings) && Apart(wIn, mappings)
      ensures var reply := DecodedOutput(p);
              var k := ById(Unsigned64(reply.invokeid));
              && mappings.Contents() == Keep(old(mappings.Contents()), k)
              && wIn.Contents() == old(wIn.Contents()) + AnsweredAll(Hit(old(mappings.Contents()), k), reply)
    {
      hide Refs, Distinct, Keep, Hit, AnsweredAll, OutputValid, DecodedOutput, Separate;
      var decoded := NewDecoded(p);
      RouteAside(decoded, now);
    }

    method RouteAside(decoded: OutputType, now: int)
      requires rOut.Valid() && wIn.Valid() && mappings.Valid() && decoded.Valid()
      requires Apart(rOut, wIn) && Apart(rOut, mappings) && Apart(wIn, mappings)
      modifies wIn, wIn.nodes`next, mappings, mappings.nodes`next, mappings.nodes`freed, decoded`invokeid
      ensures rOut.Valid() && wIn.Valid() && mappings.Valid() && rOut.Contents() == old(rOut.Contents())
      ensures Apart(rOut, wIn) && Apart(rOut, mappings) && Apart(wIn, mappings)
      ensures var k := ById(Unsigned64(old(decoded.invokeid)));
              && mappings.Contents() == Keep(old(mappings.Contents()), k)
              && wIn.Contents() == old(wIn.Contents()) +
                 AnsweredAll(Hit(old(mappings.Contents()), k), old(decoded.Value()))
    {
      hide Refs, Distinct, Keep, Hit, AnsweredAll, OutputValid, Accounted;
      ghost var ws, ms := wIn.nodes, mappings.nodes;
      RouteReply(decoded, now);
      ApartFrom(wIn, mappings, ms);
      GrownApart(wIn, ws, rOut);
      GrownApart(mappings, ms, rOut);
    }

    /** A reply goes through two critical sections, each a step of the state machine from any state. */
    method ProcessIncomingOutMessages(now: int, ghost s: Sys) returns (ghost t: Sys)
      requires MatchesOut(s) && s.proc == Idle
      modifies rOut, rOut.nodes`next, rOut.nodes`freed, wIn, wIn.nodes`next
      modifies mappings, mappings.nodes`next, mappings.nodes`freed
      ensures MatchesOut(t)
      ensures t == if s.rOut == [] then s else Next(Next(s, Step.TakeReply), Step.DeliverReply)
      ensures rOut.Contents() == t.rOut && wIn.Contents() == t.wIn && mappings.Contents() == t.mappings
    {
      hide Next, MatchesOut;
      var m;
      m, t := TakeReply(s);
      match m {
        case None =>
        case Some(p) => t := DeliverReply(p, now, t);
      }
      MatchedOut(t);
    }

    /** The loop over the mappings: every match gets a copy under its own id and is freed. */
    method RouteReply(decoded: OutputType, now: int)
      requires wIn.Valid() && mappings.Valid() && Apart(wIn, mappings) && decoded.Valid()
      modifies wIn, wIn.nodes`next, mappings, mappings.nodes`next, mappings.nodes`freed, decoded`invokeid
      ensures wIn.Valid() && mappings.Valid() && Separate(wIn, wIn.nodes, mappings, old(mappings.nodes))
      ensures Renewed(wIn) && Smaller(old(mappings.nodes), mappings) && Accounted(old(mappings.nodes), mappings)
      ensures var k := ById(Unsigned64(old(decoded.invokeid)));
              && mappings.Contents() == Keep(old(mappings.Contents()), k)
              && wIn.Contents() == old(wIn.Contents()) +
                 AnsweredAll(Hit(old(mappings.Contents()), k), old(decoded.Value()))
    {
      HoldsItself(decoded);
      hide *;
      var invokeidGenerated := Unsigned64(decoded.invokeid);
      ghost var k, reply, w0 := ById(invokeidGenerated), decoded.Value(), wIn.Contents();
      ghost var kept: seq<Entry<Mapping>>, rest: seq<Entry<Mapping>> := [], mappings.nodes;
      ghost var done: seq<Mapping>, todo: seq<Mapping> := [], mappings.Contents();
      ghost var ms, ns := todo, mappings.nodes;
      var qe := mappings.head;
      NothingYet(k);
      NoAnswers(reply);
      WalkStart(mappings);
      SmallerSelf(mappings);
      RenewedSelf(wIn);
      ApartNow(wIn, mappings);
      while qe != null
        invariant wIn.Valid() && Renewed(wIn) && mappings.Valid() && Smaller(ns, mappings)
        invariant Separate(wIn, wIn.nodes, mappings, ns)
        invariant Walking(mappings, ns, kept, rest, Keep(done, k), todo, qe) && Holds(decoded, reply)
        invariant done + todo == ms && wIn.Contents() == w0 + AnsweredAll(Hit(done, k), reply)
        decreases |todo|
      {
        qe, kept, rest, done, todo := Visit(decoded, qe, invokeidGenerated, now, reply, w0, ns, kept, rest, done, todo);
      }
      WalkEnd(mappings, ns, kept, rest, Keep(done, k), todo);
      assert done + [] == done;
    }

    /** One turn of the loop. */
    method Visit(decoded: OutputType, qe: Entry<Mapping>, id: uint64, now: int, ghost reply: Output,
                 ghost w0: seq<InMessage>,
                 ghost ns: seq<Entry<Mapping>>,
                 ghost kept: seq<Entry<Mapping>>, ghost rest: seq<Entry<Mapping>>, ghost done: seq<Mapping>,
                 ghost todo: seq<Mapping>)
      returns (next: Entry?<Mapping>, ghost kept': seq<Entry<Mapping>>, ghost rest': seq<Entry<Mapping>>,
               ghost done': seq<Mapping>, ghost todo': seq<Mapping>)
      requires wIn.Valid() && mappings.Valid() && Smaller(ns, mappings) && Separate(wIn, wIn.nodes, mappings, ns)
      requires Walking(mappings, ns, kept, rest, Keep(done, ById(id)), todo, qe) && Holds(decoded, reply)
      requires OutputValid(reply) && wIn.Contents() == w0 + AnsweredAll(Hit(done, ById(id)), reply)
      modifies wIn, wIn.nodes`next, mappings, mappings.nodes`next, mappings.nodes`freed, decoded`invokeid
      ensures wIn.Valid() && Renewed(wIn) && mappings.Valid() && Smaller(ns, mappings)
      ensures Separate(wIn, wIn.nodes, mappings, ns)
      ensures Smaller(old(mappings.nodes), mappings)
      ensures Walking(mappings, ns, kept', rest', Keep(done', ById(id)), todo', next) && Holds(decoded, reply)
      ensures wIn.Contents() == w0 + AnsweredAll(Hit(done', ById(id)), reply)
      ensures done' + todo' == done + todo && |todo'| < |todo|
    {
      hide Walking, Keep, Hit, AnsweredAll, Answered, Distinct, Remove, Holds, OutputValid, Refs, Separate;
      ghost var k := ById(id);
      AtHand(mappings, ns, kept, rest, Keep(done, k), todo, qe);
      OneMoreMapping(done, todo, k);
      OneMoreAnswer(w0, done, todo, k, reply);
      if qe.ref.generated == id {
        next := AnswerAndFree(decoded, qe, now, reply, ns, kept, rest, Keep(done, k), todo);
        kept' := kept;
      } else {
        kept' := kept + [qe];
        next := qe.next;
        RenewedSelf(wIn);
        SmallerSelf(mappings);
      }
      done', todo', rest' := done + [todo[0]], todo[1..], rest[1..];
    }

    /** A match: the client of the mapping is answered, and the mapping is freed. */
    method AnswerAndFree(decoded: OutputType, qe: Entry<Mapping>, now: int, ghost reply: Output,
                         ghost ns: seq<Entry<Mapping>>,
                         ghost kept: seq<Entry<Mapping>>, ghost rest: seq<Entry<Mapping>>,
                         ghost stay: seq<Mapping>, ghost todo: seq<Mapping>)
      returns (next: Entry?<Mapping>)
      requires wIn.Valid() && mappings.Valid() && Smaller(ns, mappings) && Separate(wIn, wIn.nodes, mappings, ns)
      requires Walking(mappings, ns, kept, rest, stay, todo, qe) && Holds(decoded, reply) && OutputValid(reply)
      modifies wIn, wIn.nodes`next, mappings, mappings.nodes`next, mappings.nodes`freed, decoded`invokeid
      ensures wIn.Valid() && Renewed(wIn) && mappings.Valid() && Smaller(ns, mappings)
      ensures Separate(wIn, wIn.nodes, mappings, ns)
      ensures Smaller(old(mappings.nodes), mappings) && Holds(decoded, reply)
      ensures rest != [] && todo != [] && Walking(mappings, ns, kept, rest[1..], stay, todo[1..], next)
      ensures wIn.Contents() == old(wIn.Contents()) + [Answered(old(qe.ref), reply)]
    {
      hide Answered, Distinct, Remove, Holds, OutputValid, Refs, Separate, Renewed, Accounted, Refer;
      SendBack(decoded, qe.ref, now, ns, reply);
      next := FreeAside(wIn, mappings, qe, ns, kept, rest, stay, todo);
    }

    /** Re-encode with the original id and queue the result for the client of the mapping; the list is not touched. */
    method SendBack(decoded: OutputType, m: Mapping, now: int, ghost ns: seq<Entry<Mapping>>, ghost reply: Output)
      requires Holds(decoded, reply) && wIn.Valid() && Separate(wIn, wIn.nodes, mappings, ns)
      modifies wIn, wIn.nodes`next, decoded`invokeid
      ensures OutputValid(reply) && Holds(decoded, reply) && wIn.Valid() && Renewed(wIn)
      ensures wIn.Contents() == old(wIn.Contents()) + [Answered(m, reply)]
      ensures Separate(wIn, wIn.nodes, mappings, ns)
      ensures unchanged(mappings) && forall i :: 0 <= i < |ns| ==> unchanged(ns[i])
    {
      hide OutputPdu, Distinct, Refs;
      decoded.invokeid := Wrap64(m.original);
      var err, reencoded := EncodeOutPdu(decoded);
      PutNew(wIn, InMessage(m.socket, reencoded), now);
    }
  }

  /** The local structure that a reply is decoded into. */
  method NewDecoded(p: Pdu) returns (decoded: OutputType)
    ensures fresh(decoded) && decoded.Valid() && decoded.Value() == DecodedOutput(p)
  {
    decoded := new OutputType();
    var err := DecodeOutPdu(decoded, p);
  }

  /** The decoded structure holds the reply under some id. */
  ghost predicate Holds(decoded: OutputType, reply: Output)
    reads decoded, decoded.command, decoded.command.arr, decoded.result, decoded.result.arr
  {
    decoded.Valid() && OutputValid(reply) && decoded.Value() == reply.(invokeid := decoded.invokeid)
  }

  lemma HoldsItself(decoded: OutputType)
    requires decoded.Valid()
    ensures Holds(decoded, decoded.Value())
  {
  }

  lemma NoAnswers(reply: Output)
    requires OutputValid(reply)
    ensures AnsweredAll([], reply) == []
  {
  }

  lemma DeliverStep(s: Sys)
    requires s.proc.Replying? && |s.h.gens| == |s.mappings|
    ensures var t, reply := Next(s, Step.DeliverReply), DecodedOutput(s.proc.reply);
            var k := ById(Unsigned64(reply.invokeid));
            && t.rOut == s.rOut && t.counter == s.counter && t.proc == Idle && |t.h.gens| == |t.mappings|
            && t.mappings == Keep(s.mappings, k) && t.wIn == s.wIn + AnsweredAll(Hit(s.mappings, k), reply)
  {
    hide DecodedOutput, Keep, Hit, KeepGens, HitGens, AnsweredAll, Answers;
  }
}

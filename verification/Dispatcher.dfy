/**
 * The passes of the reading and writing threads over the shared lists (`muxer/dispatcher.c`,
 * `muxer/connection.c`), on the linked queues of the heap. Each pass is shown to be a sequence of steps of the
 * state machine, and the reading pass, which starts over after every removal, to be the same as one plain pass.
 */
module Dispatcher {
  import opened Bytes
  import opened Per
  import opened Pdus
  import opened Framing
  import opened Relay
  import opened MuxerSystem
  import opened Connections
  import opened Queues
  import opened Protocol
  import opened Walks
  import opened Passes

  /** What happens at one socket: the flags that are consumed, and whether the connection goes on. */
  method Poll(socket: int, ready: Ready, readable: set<int>, broken: set<int>)
    returns (ok: bool, data: seq<byte>, readable': set<int>, broken': set<int>)
    ensures socket in broken ==> !ok && data == [] && readable' == readable && broken' == broken - {socket}
    ensures socket !in broken && socket in readable ==>
              && readable' == readable - {socket} && broken' == broken
              && (socket in ready.net ==>
                    && ok == (ready.net[socket].Data? || ready.net[socket].WouldBlock?)
                    && data == if ready.net[socket].Data? then ready.net[socket].bytes else [])
              && (socket !in ready.net ==> ok && data == [])
    ensures socket !in broken && socket !in readable ==> ok && data == [] && readable' == readable && broken' == broken
    ensures Unvisited(socket, ready, readable, broken) ==>
            ok == Survives(socket, ready) && (ok ==> data == Incoming(socket, ready))
    ensures socket !in readable && socket !in broken ==> ok && data == [] && readable' == readable
    ensures ok ==> readable' == readable - {socket} && broken' == broken
    ensures readable - {socket} <= readable' <= readable && broken - {socket} <= broken' <= broken
  {
    ok, data, readable', broken' := true, [], readable, broken;
    if socket in broken {
      ok, broken' := false, broken - {socket};
    } else if socket in readable {
      match NetAnswer(socket, ready) {
        case Data(bytes) => data := bytes;
        case WouldBlock =>
        case Closed => ok := false;
        case Failed => ok := false;
      }
      readable' := readable - {socket};
    }
  }

  // ---------------------------------------------------------------- removing a connection

  /** `remove_connection`: walks the list it frees entries of, and removes the mappings of the socket on the way. */
  method RemoveConnection(connections: Queue<Conn>, mappings: Queue<Mapping>, socket: int) returns (count: nat)
    requires connections.Valid() && mappings.Valid() && Apart(connections, mappings)
    modifies connections, connections.nodes`next, connections.nodes`freed
    modifies mappings, mappings.nodes`next, mappings.nodes`freed
    ensures connections.Valid() && mappings.Valid() && Apart(connections, mappings)
    ensures Smaller(old(connections.nodes), connections) && Smaller(old(mappings.nodes), mappings)
    ensures var cs := old(connections.Contents());
            && connections.Contents() == Others(cs, socket) && count == |cs| - |Others(cs, socket)|
            && mappings.Contents() ==
               (if Listed(cs, socket) then Keep(old(mappings.Contents()), BySockets({socket}))
                 else old(mappings.Contents()))
    ensures Accounted(old(connections.nodes), connections)
  {
    hide Walking, Keep, Others, Listed, Distinct, Remove, Separate, Refs, Accounted;
    ghost var cs, ms, ns, mns := connections.Contents(), mappings.Contents(), connections.nodes, mappings.nodes;
    ghost var kept: seq<Entry<Conn>>, rest: seq<Entry<Conn>> := [], ns;
    ghost var done: seq<Conn>, todo: seq<Conn> := [], cs;
    var qe := connections.head;
    count := 0;
    NoOthers(socket);
    WalkStart(connections);
    SmallerSelf(connections);
    SmallerSelf(mappings);
    while qe != null
      invariant connections.Valid() && mappings.Valid() && Apart(connections, mappings)
      invariant Smaller(ns, connections) && Smaller(mns, mappings)
      invariant Walking(connections, ns, kept, rest, Others(done, socket), todo, qe)
      invariant done + todo == cs && count == |done| - |Others(done, socket)|
      invariant mappings.Contents() == (if Listed(done, socket) then Keep(ms, BySockets({socket})) else ms)
      decreases |todo|
    {
      qe, count, kept, rest, done, todo :=
        VisitConnection(connections, mappings, qe, socket, count, ns, mns, ms, kept, rest, done, todo);
    }
    WalkEnd(connections, ns, kept, rest, Others(done, socket), todo);
    assert done + [] == done;
  }

  /** The mappings go, and nothing else is touched. */
  method RemoveMappingsAside(connections: Queue<Conn>, mappings: Queue<Mapping>, socket: int,
                             ghost ns: seq<Entry<Conn>>)
    requires mappings.Valid() && Separate(connections, ns, mappings, mappings.nodes)
    modifies mappings, mappings.nodes`next, mappings.nodes`freed
    ensures mappings.Valid() && Smaller(old(mappings.nodes), mappings)
    ensures mappings.Contents() == Keep(old(mappings.Contents()), BySockets({socket}))
    ensures unchanged(connections) && forall i :: 0 <= i < |ns| ==> unchanged(ns[i])
  {
    hide Keep, Distinct, Refs;
    var removed := RemoveMappingsFor(mappings, socket);
  }

  /** The mappings of the socket go, and then the entry that the walk has moved on from. */
  method FreeConnection(connections: Queue<Conn>, mappings: Queue<Mapping>, qe: Entry<Conn>, socket: int,
                        ghost ns: seq<Entry<Conn>>, ghost mns: seq<Entry<Mapping>>,
                        ghost kept: seq<Entry<Conn>>, ghost rest: seq<Entry<Conn>>, ghost stay: seq<Conn>,
                        ghost todo: seq<Conn>)
    returns (next: Entry?<Conn>)
    requires connections.Valid() && mappings.Valid()
    requires Smaller(ns, connections) && Smaller(mns, mappings) && Separate(connections, ns, mappings, mns)
    requires Walking(connections, ns, kept, rest, stay, todo, qe)
    modifies connections, connections.nodes`next, connections.nodes`freed
    modifies mappings, mappings.nodes`next, mappings.nodes`freed
    ensures connections.Valid() && mappings.Valid() && Smaller(ns, connections) && Smaller(mns, mappings)
    ensures rest != [] && todo != [] && Walking(connections, ns, kept, rest[1..], stay, todo[1..], next)
    ensures mappings.Contents() == Keep(old(mappings.Contents()), BySockets({socket}))
  {
    hide Keep, Distinct, Remove, Refs, Separate;
    StillSeparate(connections, ns, mappings, mns);
    RemoveMappingsAside(connections, mappings, socket, ns);
    StillSeparate(connections, ns, mappings, mns);
    Swap(connections, ns, mappings, mappings.nodes);
    next := FreeAside(mappings, connections, qe, ns, kept, rest, stay, todo);
  }

  /** One turn of the loop. */
  method VisitConnection(connections: Queue<Conn>, mappings: Queue<Mapping>, qe: Entry<Conn>, socket: int, count: nat,
                         ghost ns: seq<Entry<Conn>>, ghost mns: seq<Entry<Mapping>>, ghost ms: seq<Mapping>,
                         ghost kept: seq<Entry<Conn>>, ghost rest: seq<Entry<Conn>>, ghost done: seq<Conn>,
                         ghost todo: seq<Conn>)
    returns (next: Entry?<Conn>, count': nat,
             ghost kept': seq<Entry<Conn>>, ghost rest': seq<Entry<Conn>>, ghost done': seq<Conn>,
             ghost todo': seq<Conn>)
    requires connections.Valid() && mappings.Valid() && Apart(connections, mappings)
    requires Smaller(ns, connections) && Smaller(mns, mappings) && Separate(connections, ns, mappings, mns)
    requires Walking(connections, ns, kept, rest, Others(done, socket), todo, qe)
    requires count == |done| - |Others(done, socket)|
    requires mappings.Contents() == (if Listed(done, socket) then Keep(ms, BySockets({socket})) else ms)
    modifies connections, connections.nodes`next, connections.nodes`freed
    modifies mappings, mappings.nodes`next, mappings.nodes`freed
    ensures connections.Valid() && mappings.Valid() && Apart(connections, mappings)
    ensures Smaller(ns, connections) && Smaller(mns, mappings)
    ensures Walking(connections, ns, kept', rest', Others(done', socket), todo', next)
    ensures count' == |done'| - |Others(done', socket)|
    ensures mappings.Contents() == (if Listed(done', socket) then Keep(ms, BySockets({socket})) else ms)
    ensures done' + todo' == done + todo && |todo'| < |todo|
  {
    hide Walking, Keep, Others, Listed, Distinct, Remove, Refs, Separate;
    AtHand(connections, ns, kept, rest, Others(done, socket), todo, qe);
    var c := qe.ref;
    OthersOneMore(done, c, socket);
    KeepOneMore(ms, done, c, socket);
    assert Others(done, socket) + [] == Others(done, socket);
    count' := count;
    if c.socket == socket {
      next := FreeConnection(connections, mappings, qe, socket, ns, mns, kept, rest, Others(done, socket), todo);
      count' := count + 1;
      kept' := kept;
    } else {
      kept' := kept + [qe];
      next := qe.next;
    }
    done', todo', rest' := done + [todo[0]], todo[1..], rest[1..];
    StillApart(connections, ns, mappings, mns);
  }

  // ---------------------------------------------------------------- the reading pass

  /** Three queues with no memory in common. */
  ghost predicate Lists(connections: Queue<Conn>, rIn: Queue<InMessage>, mappings: Queue<Mapping>)
    reads connections, connections.nodes, rIn, rIn.nodes, mappings, mappings.nodes
  {
    && connections.Valid() && rIn.Valid() && mappings.Valid()
    && Apart(connections, rIn) && Apart(connections, mappings) && Apart(rIn, mappings)
  }

  /** The connection goes, and the queue of requests is not touched. */
  method RemoveAside(connections: Queue<Conn>, rIn: Queue<InMessage>, mappings: Queue<Mapping>, socket: int)
    requires Lists(connections, rIn, mappings)
    modifies connections, connections.nodes`next, connections.nodes`freed
    modifies mappings, mappings.nodes`next, mappings.nodes`freed
    ensures Lists(connections, rIn, mappings)
    ensures Smaller(old(connections.nodes), connections) && Smaller(old(mappings.nodes), mappings)
    ensures unchanged(rIn) && rIn.Contents() == old(rIn.Contents())
    ensures var cs := old(connections.Contents());
            && connections.Contents() == Others(cs, socket)
            && mappings.Contents() ==
               (if Listed(cs, socket) then Keep(old(mappings.Contents()), BySockets({socket}))
                 else old(mappings.Contents()))
  {
    hide Keep, Others, Listed, Distinct, Refs, Accounted;
    ghost var ns, ms := connections.nodes, mappings.nodes;
    var count := RemoveConnection(connections, mappings, socket);
    SmallerSelf(rIn);
    StillApart(connections, ns, rIn, rIn.nodes);
    StillApart(rIn, rIn.nodes, mappings, ms);
  }

  /** The connection at hand is refreshed in place, and its requests are queued. */
  method Refresh(connections: Queue<Conn>, rIn: Queue<InMessage>, mappings: Queue<Mapping>, qe: Entry<Conn>, c: Conn,
                 requests: seq<InMessage>, now: int, ghost i: nat)
    requires Lists(connections, rIn, mappings) && i < |connections.nodes| && qe == connections.nodes[i]
    modifies qe`ref, rIn, rIn.nodes`next
    ensures Lists(connections, rIn, mappings)
    ensures unchanged(connections) && unchanged(mappings) && qe.next == old(qe.next)
    ensures Renewed(rIn)
    ensures connections.Contents() == old(connections.Contents())[i := c]
    ensures rIn.Contents() == old(rIn.Contents()) + requests && mappings.Contents() == old(mappings.Contents())
  {
    hide Distinct, Refs;
    SetRef(connections, qe, c, i);
    PutAll(rIn, requests, now);
  }

  /** One turn of the scan. */
  method LookAt(connections: Queue<Conn>, rIn: Queue<InMessage>, mappings: Queue<Mapping>, qe: Entry<Conn>,
                ready: Ready,
                readable: set<int>, broken: set<int>, now: int,
                ghost cs: seq<Conn>, ghost s0: Sys, ghost s: Sys, ghost p: nat, ghost i: nat)
    returns (next: Entry?<Conn>, readable': set<int>, broken': set<int>, ghost t: Sys, ghost p': nat, ghost i': nat)
    requires Lists(connections, rIn, mappings) && qe == At(connections, i)
    requires Reading(cs, ready, s0, p, i, connections.Contents(), readable, broken, s)
    requires rIn.Contents() == s.rIn && mappings.Contents() == s.mappings
    modifies connections, connections.nodes, rIn, rIn.nodes`next, mappings, mappings.nodes`next, mappings.nodes`freed
    ensures Lists(connections, rIn, mappings) && next == At(connections, i') && i' <= |connections.nodes|
    ensures Smaller(old(connections.nodes), connections) && Smaller(old(mappings.nodes), mappings)
    ensures Renewed(rIn)
    ensures Reading(cs, ready, s0, p', i', connections.Contents(), readable', broken', t)
    ensures rIn.Contents() == t.rIn && mappings.Contents() == t.mappings
    ensures p < p' <= |cs| || (p' == p && i' == i + 1 && |connections.nodes| == old(|connections.nodes|))
  {
    hide Reading, Keep, Survives, Incoming, Unvisited, Next, Parse, Tagged, LinkReceive, Others, Listed, Distinct, Refs,
      Lists;
    ghost var conns := connections.Contents();
    EntryAt(connections, rIn, mappings, qe, i);
    ReadingHere(cs, ready, s0, p, i, conns, readable, broken, s);
    var c := qe.ref;
    var ok, data;
    ok, data, readable', broken' := Poll(c.socket, ready, readable, broken);
    if !ok {
      ReadingRemoved(cs, ready, s0, p, i, conns, readable, broken, s, readable', broken');
      RemoveAside(connections, rIn, mappings, c.socket);
      next, i', p', t := connections.head, 0, p + 1, Next(s, Close(c.socket));
      HeadOf(connections, rIn, mappings);
    } else {
      p' := ReadingOn(cs, ready, s0, p, i, conns, readable, broken, s, data);
      t := Next(s, ReceiveClient(c.socket, data));
      Refresh(connections, rIn, mappings, qe, c.(link := LinkReceive(c.link, data)),
              Tagged(c.socket, Parse(c.link.r + data).pdus), now, i);
      next, i' := qe.next, i + 1;
      EntryAt(connections, rIn, mappings, qe, i);
    }
  }

  lemma EntryAt(connections: Queue<Conn>, rIn: Queue<InMessage>, mappings: Queue<Mapping>, qe: Entry<Conn>, i: nat)
    requires Lists(connections, rIn, mappings) && qe == At(connections, i)
    ensures i < |connections.nodes| == |connections.Contents()| && qe == connections.nodes[i]
    ensures qe.ref == connections.Contents()[i] && qe.next == At(connections, i + 1)
  {
    Follow(connections, i);
  }

  lemma HeadOf(connections: Queue<Conn>, rIn: Queue<InMessage>, mappings: Queue<Mapping>)
    requires Lists(connections, rIn, mappings)
    ensures connections.head == At(connections, 0)
  {
    AtHead(connections);
  }

  /** The scan: after a removal it goes back to the head of the list, yet it comes to what one plain pass comes to. */
  method Scan(connections: Queue<Conn>, rIn: Queue<InMessage>, mappings: Queue<Mapping>, ready: Ready, now: int,
              ghost s: Sys)
    returns (ghost t: Sys)
    requires Lists(connections, rIn, mappings) && AllFit(connections.Contents(), ready)
    requires Agree(connections.Contents(), s) && rIn.Contents() == s.rIn && mappings.Contents() == s.mappings
    modifies connections, connections.nodes, rIn, rIn.nodes`next, mappings, mappings.nodes`next, mappings.nodes`freed
    ensures Lists(connections, rIn, mappings) && Reaches(s, t)
    ensures Agree(connections.Contents(), t) && rIn.Contents() == t.rIn && mappings.Contents() == t.mappings
    ensures var cs := old(connections.Contents());
            && connections.Contents() == PassConns(cs, ready) && t.rIn == s.rIn + PassQueued(cs, ready)
            && t.mappings == Keep(s.mappings, BySockets(PassClosed(cs, ready))) && t.wIn == s.wIn
  {
    hide Agree, Reaches, Reading, PassConns, PassQueued, PassClosed, Keep, AllFit, Distinct, Refs, Lists;
    ghost var cs, ns, ms := connections.Contents(), connections.nodes, mappings.nodes;
    ghost var p: nat, i: nat := 0, 0;
    var readable, broken := ready.readable, ready.broken;
    t := s;
    ReadingStart(cs, ready, s);
    SmallerSelf(connections);
    SmallerSelf(mappings);
    HeadOf(connections, rIn, mappings);
    var qe := connections.head;
    while qe != null
      invariant Lists(connections, rIn, mappings) && Smaller(ns, connections) && Smaller(ms, mappings)
      invariant Renewed(rIn)
      invariant qe == At(connections, i) && p <= |cs| && i <= |connections.nodes|
      invariant Reading(cs, ready, s, p, i, connections.Contents(), readable, broken, t)
      invariant rIn.Contents() == t.rIn && mappings.Contents() == t.mappings
      decreases |cs| - p, |connections.nodes| - i
    {
      qe, readable, broken, t, p, i :=
        LookAt(connections, rIn, mappings, qe, ready, readable, broken, now, cs, s, t, p, i);
    }
    ReadingEnd(cs, ready, s, p, connections.Contents(), readable, broken, t);
  }

  /**
   * `read_in_socket`: after a removal the scan goes back to the head of the list, yet the pass ends, each
   * socket is received from at most once, and nothing is queued twice. The connections at the positions `at` go on,
   * and the requests that the n-th of them queued stand behind those queued before from `offs[n]` to `offs[n + 1]`.
   */
  method ReadInSocket(connections: Queue<Conn>, rIn: Queue<InMessage>, mappings: Queue<Mapping>, ready: Ready, now: int,
                      ghost s: Sys)
    returns (ghost t: Sys, ghost at: seq<nat>, ghost offs: seq<nat>)
    requires Lists(connections, rIn, mappings) && AllFit(connections.Contents(), ready)
    requires Agree(connections.Contents(), s) && rIn.Contents() == s.rIn && mappings.Contents() == s.mappings
    modifies connections, connections.nodes, rIn, rIn.nodes`next, mappings, mappings.nodes`next, mappings.nodes`freed
    ensures Lists(connections, rIn, mappings) && Reaches(s, t)
    ensures Agree(connections.Contents(), t) && rIn.Contents() == t.rIn && mappings.Contents() == t.mappings
    ensures var cs := old(connections.Contents());
            && connections.Contents() == PassConns(cs, ready) && t.rIn == s.rIn + PassQueued(cs, ready)
            && t.mappings == Keep(s.mappings, BySockets(PassClosed(cs, ready))) && t.wIn == s.wIn
    ensures var cs := old(connections.Contents());
            && |at| == |connections.Contents()| && (forall i, j :: 0 <= i < j < |at| ==> at[i] < at[j])
            && (forall n :: 0 <= n < |at| ==> at[n] < |cs|)
            && forall i: nat :: i < |cs| ==>
                 var x := cs[i].socket;
                 (i in at <==>
                   x !in ready.broken
                   && !(x in ready.readable && x in ready.net && (ready.net[x].Closed? || ready.net[x].Failed?)))
    ensures rIn.Contents()[..|old(rIn.Contents())|] == old(rIn.Contents())
    ensures |offs| == |at| + 1 && offs[0] == 0 && offs[|at|] == |rIn.Contents()| - |old(rIn.Contents())|
    ensures var cs, q := old(connections.Contents()), rIn.Contents()[|old(rIn.Contents())|..];
            forall n :: 0 <= n < |at| ==>
              WentOn(cs[at[n]], ready, connections.Contents()[n], q, offs[n], offs[n + 1])
    ensures forall m :: m in mappings.Contents() <==>
              && m in old(mappings.Contents())
              && forall i: nat :: i < |old(connections.Contents())| && i !in at ==>
                   m.socket != old(connections.Contents())[i].socket
  {
    hide Agree, Reaches, PassConns, PassQueued, PassClosed, Keep, AllFit, Lists, Refs, WentOn;
    ghost var cs, q0 := connections.Contents(), rIn.Contents();
    t := Scan(connections, rIn, mappings, ready, now, s);
    assert rIn.Contents()[|q0|..] == PassQueued(cs, ready);
    at, offs := PassExactly(cs, ready);
    MappingsLeft(cs, ready, s.mappings, at);
  }

  // ---------------------------------------------------------------- refilling the write buffers

  /** Freeing the entry at a position. */
  method FreeAt<T>(q: Queue<T>, qe: Entry<T>, ghost j: nat)
    requires q.Valid() && j < |q.nodes| && qe == q.nodes[j]
    modifies q, q.nodes`next, qe`freed
    ensures q.Valid() && Smaller(old(q.nodes), q) && qe.freed
    ensures q.nodes == old(q.nodes)[..j] + old(q.nodes)[j + 1..]
    ensures q.Contents() == old(q.Contents())[..j] + old(q.Contents())[j + 1..]
  {
    hide Remove, Distinct;
    ghost var ns := q.nodes;
    RemoveAt(ns, j);
    q.Free(qe);
  }

  /** The search for the oldest message of a socket, which leaves the queue and is freed. */
  method TakeFor(q: Queue<InMessage>, socket: int) returns (r: Option<Pdu>)
    requires q.Valid()
    modifies q, q.nodes`next, q.nodes`freed
    ensures q.Valid() && Smaller(old(q.nodes), q)
    ensures var w := old(q.Contents());
            var j := FirstFor(socket, w);
            if j == |w| then r == None && q.Contents() == w
            else r == Some(w[j].pdu) && q.Contents() == w[..j] + w[j + 1..] && old(q.nodes)[j].freed
  {
    hide FirstFor, Distinct, Refs, Smaller;
    ghost var w, j: nat := q.Contents(), 0;
    SmallerSelf(q);
    AtHead(q);
    var qe := q.head;
    while qe != null
      invariant q.Valid() && unchanged(q) && q.Contents() == w && Smaller(old(q.nodes), q)
      invariant j <= |w| == |q.nodes| && qe == At(q, j) && forall k :: 0 <= k < j ==> w[k].socket != socket
      decreases |w| - j
    {
      Follow(q, j);
      if qe.ref.socket == socket {
        FirstForIs(socket, w, j);
        r := Some(qe.ref.pdu);
        FreeAt(q, qe, j);
        return;
      }
      qe, j := qe.next, j + 1;
    }
    FirstForIs(socket, w, j);
    r := None;
  }

  /**
   * `write_data_to_in_buffer`: every connection whose write buffer is empty gets the oldest message for its
   * socket. The messages of every socket stay in order, and a pass takes at most the first of them.
   */
  method WriteDataToInBuffer(connections: Queue<Conn>, wIn: Queue<InMessage>, ghost s: Sys) returns (ghost t: Sys)
    requires connections.Valid() && wIn.Valid() && Apart(connections, wIn)
    requires Agree(connections.Contents(), s) && wIn.Contents() == s.wIn
    modifies connections.nodes`ref, wIn, wIn.nodes`next, wIn.nodes`freed
    ensures connections.Valid() && wIn.Valid() && Reaches(s, t)
    ensures Agree(connections.Contents(), t) && wIn.Contents() == t.wIn && t.rIn == s.rIn && t.mappings == s.mappings
    ensures connections.Contents() == Refills(old(connections.Contents()), s.wIn)
    ensures t.wIn == LeftBehind(s.wIn, Asking(old(connections.Contents())))
    ensures forall socket :: For(socket, t.wIn) == AfterRefill(socket, old(connections.Contents()), s.wIn)
  {
    hide Agree, Reaches, Refilling, Refills, AfterRefill, For, LeftBehind, Asking, Distinct, Refs, Apart;
    ghost var cs, ws, i: nat := connections.Contents(), wIn.nodes, 0;
    t := s;
    RefillStart(cs, s);
    AtHead(connections);
    SmallerSelf(wIn);
    var qe := connections.head;
    while qe != null
      invariant connections.Valid() && wIn.Valid() && Apart(connections, wIn) && Smaller(ws, wIn)
      invariant unchanged(connections)
      invariant i <= |connections.nodes| && qe == At(connections, i)
      invariant Refilling(cs, s, i, connections.Contents(), t) && wIn.Contents() == t.wIn
      decreases |connections.nodes| - i
    {
      t := RefillOne(connections, wIn, qe, cs, s, t, i);
      Follow(connections, i);
      qe, i := qe.next, i + 1;
    }
    RefillEnd(cs, s, i, connections.Contents(), t);
  }

  /** One connection of the pass. */
  method RefillOne(connections: Queue<Conn>, wIn: Queue<InMessage>, qe: Entry<Conn>,
                   ghost cs: seq<Conn>, ghost s0: Sys, ghost s: Sys, ghost i: nat)
    returns (ghost t: Sys)
    requires connections.Valid() && wIn.Valid() && Apart(connections, wIn) && qe == At(connections, i)
    requires Refilling(cs, s0, i, connections.Contents(), s) && wIn.Contents() == s.wIn
    modifies qe`ref, wIn, wIn.nodes`next, wIn.nodes`freed
    ensures connections.Valid() && wIn.Valid() && Apart(connections, wIn) && Smaller(old(wIn.nodes), wIn)
    ensures unchanged(connections) && qe.next == old(qe.next)
    ensures Refilling(cs, s0, i + 1, connections.Contents(), t) && wIn.Contents() == t.wIn
  {
    hide Refilling, FirstFor, Next, LinkLoad, Distinct, Refs;
    Follow(connections, i);
    SmallerSelf(wIn);
    ghost var conns := connections.Contents();
    var c := qe.ref;
    t := RefillTurn(cs, s0, i, conns, s);
    if c.link.w == [] {
      var r := TakeAside(connections, wIn, c.socket);
      match r {
        case Some(pdu) => SetRef(connections, qe, c.(link := LinkLoad(c.link, pdu)), i);
        case None =>
      }
    }
  }

  /** The message leaves its queue, and the connections are not touched. */
  method TakeAside(connections: Queue<Conn>, wIn: Queue<InMessage>, socket: int) returns (r: Option<Pdu>)
    requires connections.Valid() && wIn.Valid() && Apart(connections, wIn)
    modifies wIn, wIn.nodes`next, wIn.nodes`freed
    ensures connections.Valid() && wIn.Valid() && Apart(connections, wIn) && Smaller(old(wIn.nodes), wIn)
    ensures unchanged(connections) && unchanged(connections.nodes)
    ensures connections.Contents() == old(connections.Contents())
    ensures var w := old(wIn.Contents());
            var j := FirstFor(socket, w);
            if j == |w| then r == None && wIn.Contents() == w
            else r == Some(w[j].pdu) && wIn.Contents() == w[..j] + w[j + 1..]
  {
    hide FirstFor, Distinct, Refs;
    ghost var ws := wIn.nodes;
    r := TakeFor(wIn, socket);
    SmallerSelf(connections);
    StillApart(connections, connections.nodes, wIn, ws);
  }

  // ---------------------------------------------------------------- messages for closed sockets

  method IsListed(connections: Queue<Conn>, socket: int) returns (listed: bool)
    requires connections.Valid()
    ensures listed == Listed(connections.Contents(), socket)
  {
    hide Distinct, Refs;
    ghost var cs, i: nat := connections.Contents(), 0;
    AtHead(connections);
    var qe := connections.head;
    while qe != null
      invariant i <= |cs| == |connections.nodes| && qe == At(connections, i)
      invariant forall k :: 0 <= k < i ==> cs[k].socket != socket
      decreases |cs| - i
    {
      Follow(connections, i);
      if qe.ref.socket == socket {
        return true;
      }
      qe, i := qe.next, i + 1;
    }
    return false;
  }

  /** `free_w_in_messages_mapped_to_invalid_sockets`: what waits for a socket that is not listed is dropped. */
  method FreeMessagesOfClosedSockets(connections: Queue<Conn>, wIn: Queue<InMessage>, ghost s: Sys)
    returns (ghost t: Sys)
    requires connections.Valid() && wIn.Valid() && Apart(connections, wIn)
    requires Agree(connections.Contents(), s) && wIn.Contents() == s.wIn
    modifies wIn, wIn.nodes`next, wIn.nodes`freed
    ensures connections.Valid() && wIn.Valid() && Apart(connections, wIn) && Accounted(old(wIn.nodes), wIn)
    ensures connections.Contents() == old(connections.Contents()) && Reaches(s, t)
    ensures Agree(connections.Contents(), t) && wIn.Contents() == t.wIn && t.rIn == s.rIn && t.mappings == s.mappings
    ensures t.wIn == Addressed(s.wIn, connections.Contents())
  {
    hide Agree, Reaches, Addressed, Dropping, Walking, Distinct, Refs, Accounted;
    ghost var cs, ns := connections.Contents(), wIn.nodes;
    ghost var kept: seq<Entry<InMessage>>, rest: seq<Entry<InMessage>> := [], ns;
    ghost var done: seq<InMessage>, todo: seq<InMessage> := [], s.wIn;
    t := s;
    DropStart(cs, s);
    WalkStart(wIn);
    SmallerSelf(wIn);
    var qe := wIn.head;
    while qe != null
      invariant connections.Valid() && wIn.Valid() && Smaller(ns, wIn) && connections.Contents() == cs
      invariant unchanged(connections)
      invariant Walking(wIn, ns, kept, rest, Addressed(done, cs), todo, qe) && Dropping(cs, s, done, todo, t)
      decreases |todo|
    {
      qe, t, kept, rest, done, todo := VisitMessage(connections, wIn, qe, cs, s, t, ns, kept, rest, done, todo);
    }
    WalkEnd(wIn, ns, kept, rest, Addressed(done, cs), todo);
    DropEnd(cs, s, done, t);
    SmallerSelf(connections);
    StillApart(connections, connections.nodes, wIn, ns);
  }

  /** One turn of the loop. */
  method VisitMessage(connections: Queue<Conn>, wIn: Queue<InMessage>, qe: Entry<InMessage>,
                      ghost cs: seq<Conn>, ghost s0: Sys, ghost s: Sys, ghost ns: seq<Entry<InMessage>>,
                      ghost kept: seq<Entry<InMessage>>, ghost rest: seq<Entry<InMessage>>,
                      ghost done: seq<InMessage>, ghost todo: seq<InMessage>)
    returns (next: Entry?<InMessage>, ghost t: Sys,
             ghost kept': seq<Entry<InMessage>>, ghost rest': seq<Entry<InMessage>>,
             ghost done': seq<InMessage>, ghost todo': seq<InMessage>)
    requires connections.Valid() && connections.Contents() == cs && wIn.Valid()
    requires Smaller(ns, wIn) && Separate(connections, connections.nodes, wIn, ns)
    requires Walking(wIn, ns, kept, rest, Addressed(done, cs), todo, qe) && Dropping(cs, s0, done, todo, s)
    modifies wIn, wIn.nodes`next, wIn.nodes`freed
    ensures connections.Valid() && connections.Contents() == cs && unchanged(connections) && wIn.Valid()
    ensures Smaller(ns, wIn)
    ensures Walking(wIn, ns, kept', rest', Addressed(done', cs), todo', next) && Dropping(cs, s0, done', todo', t)
    ensures |todo'| < |todo|
  {
    hide Addressed, Dropping, Listed, Walking, Distinct, Remove, Refs;
    AtHand(wIn, ns, kept, rest, Addressed(done, cs), todo, qe);
    var m := qe.ref;
    var live := IsListed(connections, m.socket);
    t := DropTurn(cs, s0, done, todo, s);
    if live {
      kept' := kept + [qe];
      next := qe.next;
    } else {
      assert Addressed(done, cs) + [] == Addressed(done, cs);
      next := FreeAside(connections, wIn, qe, ns, kept, rest, Addressed(done, cs), todo);
      kept' := kept;
    }
    done', todo', rest' := done + [todo[0]], todo[1..], rest[1..];
  }

  // ---------------------------------------------------------------- accepting and cleaning up

  /** `read_listener_socket`, for a socket that the network has just opened. */
  method Accept(connections: Queue<Conn>, socket: int, now: int, ghost s: Sys)
    requires connections.Valid() && Agree(connections.Contents(), s) && socket > 0
    requires !Listed(connections.Contents(), socket)
    modifies connections, connections.nodes`next
    ensures connections.Valid()
    ensures connections.Contents() == old(connections.Contents()) + [Conn(socket, Link([], [], [], [], [], []))]
    ensures Agree(connections.Contents(), Next(s, Step.Accept(socket)))
  {
    hide Agree, Next, Listed, Distinct, Refs;
    AgreeAccept(connections.Contents(), s, socket);
    PutNew(connections, Conn(socket, FRESH_LINK), now);
  }

  /** `remove_all_mappings`, one step for each of the connections that are still listed. */
  method RemoveAllMappings(connections: Queue<Conn>, mappings: Queue<Mapping>, ghost s: Sys) returns (ghost t: Sys)
    requires connections.Valid() && mappings.Valid() && Apart(connections, mappings)
    requires Agree(connections.Contents(), s) && s.locked && mappings.Contents() == s.mappings
    modifies mappings, mappings.nodes`next, mappings.nodes`freed
    ensures connections.Valid() && mappings.Valid() && Apart(connections, mappings)
    ensures Smaller(old(mappings.nodes), mappings)
    ensures connections.Contents() == old(connections.Contents()) && t == Run(s, Clears(connections.Contents()))
    ensures Agree(connections.Contents(), t) && t.locked && SameQueues(s, t) && mappings.Contents() == t.mappings
    ensures t.mappings == Keep(s.mappings, BySockets(Sockets(connections.Contents())))
  {
    hide Keep, Sockets, Distinct, Refs, Separate, Unmapping, Agree, Next, Run;
    ghost var cs, mns, i: nat := connections.Contents(), mappings.nodes, 0;
    t := s;
    UnmapStart(cs, s);
    AtHead(connections);
    SmallerSelf(connections);
    SmallerSelf(mappings);
    var qe := connections.head;
    while qe != null
      invariant connections.Valid() && mappings.Valid() && unchanged(connections) && connections.Contents() == cs
      invariant Smaller(mns, mappings) && i <= |cs| == |connections.nodes| && qe == At(connections, i)
      invariant Unmapping(cs, s, i, t) && mappings.Contents() == t.mappings
      decreases |cs| - i
    {
      Follow(connections, i);
      var socket := qe.ref.socket;
      qe := qe.next;
      UnmapTurn(cs, s, i, t);
      RemoveMappingsOf(connections, mappings, socket, mns);
      t, i := Next(t, ClearMappings(socket)), i + 1;
    }
    UnmapEnd(cs, s, t);
    StillApart(connections, connections.nodes, mappings, mns);
  }

  /** The mappings of one listed connection go, and the connections are not touched. */
  method RemoveMappingsOf(connections: Queue<Conn>, mappings: Queue<Mapping>, socket: int,
                          ghost mns: seq<Entry<Mapping>>)
    requires connections.Valid() && mappings.Valid() && Smaller(mns, mappings)
    requires Separate(connections, connections.nodes, mappings, mns)
    modifies mappings, mappings.nodes`next, mappings.nodes`freed
    ensures connections.Valid() && unchanged(connections) && connections.Contents() == old(connections.Contents())
    ensures unchanged(connections.nodes) && mappings.Valid() && Smaller(mns, mappings)
    ensures Smaller(old(mappings.nodes), mappings)
    ensures mappings.Contents() == Keep(old(mappings.Contents()), BySockets({socket}))
  {
    hide Keep, Distinct, Refs, Separate;
    StillSeparate(connections, connections.nodes, mappings, mns);
    RemoveMappingsAside(connections, mappings, socket, connections.nodes);
  }

  /** `remove_all_connections` steps on before it removes, which is safe as no two connections share a socket. */
  method RemoveAllConnections(connections: Queue<Conn>, mappings: Queue<Mapping>, ghost s: Sys) returns (ghost t: Sys)
    requires connections.Valid() && mappings.Valid() && Apart(connections, mappings)
    requires Agree(connections.Contents(), s) && mappings.Contents() == s.mappings
    modifies connections, connections.nodes`next, connections.nodes`freed
    modifies mappings, mappings.nodes`next, mappings.nodes`freed
    ensures connections.Valid() && mappings.Valid() && Apart(connections, mappings) && connections.Contents() == []
    ensures Smaller(old(mappings.nodes), mappings)
    ensures t == Run(s, Closes(old(connections.Contents())))
    ensures Agree([], t) && SameQueues(s, t) && mappings.Contents() == t.mappings
    ensures t.mappings == Keep(s.mappings, BySockets(Sockets(old(connections.Contents()))))
  {
    hide Agree, Run, Keep, Sockets, Clearing, Distinct, Refs, Apart;
    ghost var cs, ns, ms, i: nat := connections.Contents(), connections.nodes, mappings.nodes, 0;
    t := s;
    ClearStart(cs, s);
    AtHead(connections);
    SmallerSelf(connections);
    SmallerSelf(mappings);
    var qe := connections.head;
    while qe != null
      invariant connections.Valid() && mappings.Valid() && Apart(connections, mappings)
      invariant Smaller(ns, connections) && Smaller(ms, mappings) && qe == At(connections, 0)
      invariant Clearing(cs, s, i, connections.Contents(), t) && mappings.Contents() == t.mappings
      decreases |connections.nodes|
    {
      qe, t := RemoveFirstConnection(connections, mappings, qe, cs, s, t, i);
      i := i + 1;
    }
    ClearEnd(cs, s, i, t);
  }

  /** One turn: the entry that the walk has moved on to outlives the removal. */
  method RemoveFirstConnection(connections: Queue<Conn>, mappings: Queue<Mapping>, qe: Entry<Conn>,
                               ghost cs: seq<Conn>, ghost s0: Sys, ghost s: Sys, ghost i: nat)
    returns (next: Entry?<Conn>, ghost t: Sys)
    requires connections.Valid() && mappings.Valid() && Apart(connections, mappings) && qe == At(connections, 0)
    requires Clearing(cs, s0, i, connections.Contents(), s) && mappings.Contents() == s.mappings
    modifies connections, connections.nodes`next, connections.nodes`freed
    modifies mappings, mappings.nodes`next, mappings.nodes`freed
    ensures connections.Valid() && mappings.Valid() && Apart(connections, mappings)
    ensures Smaller(old(connections.nodes), connections) && Smaller(old(mappings.nodes), mappings)
    ensures |connections.nodes| < old(|connections.nodes|) && next == At(connections, 0)
    ensures Clearing(cs, s0, i + 1, connections.Contents(), t) && mappings.Contents() == t.mappings
  {
    hide Clearing, Keep, Others, Listed, DistinctSockets, Distinct, Refs, Apart, Accounted;
    ghost var ns, conns := connections.nodes, connections.Contents();
    Follow(connections, 0);
    t := ClearTurn(cs, s0, i, conns, s);
    ReferSelf(connections);
    var socket := qe.ref.socket;
    next := qe.next;
    var count := RemoveConnection(connections, mappings, socket);
    SameFirst(connections, ns, conns);
  }

  lemma ReferSelf<T>(q: Queue<T>)
    ensures Refer(q.nodes, q.Contents())
  {
  }

  /** Entries are told apart by their sockets. */
  lemma SameFirst(q: Queue<Conn>, ns: seq<Entry<Conn>>, cs: seq<Conn>)
    requires Smaller(ns, q) && Refer(ns, cs) && cs != [] && DistinctSockets(cs) && q.Contents() == cs[1..]
    ensures At(q, 0) == if |ns| > 1 then ns[1] else null
  {
    if |ns| > 1 {
      var k := IndexIn(ns, q.nodes[0]);
      assert q.nodes[0].ref == q.Contents()[0] == cs[1];
      assert cs[k] == cs[1];
    }
  }

  /** `remove_all_messages` */
  method RemoveAllMessages(rIn: Queue<InMessage>, wIn: Queue<InMessage>, rOut: Queue<Pdu>, wOut: Queue<Pdu>)
    requires rIn.Valid() && wIn.Valid() && rOut.Valid() && wOut.Valid()
    requires Apart(rIn, wIn) && Apart(rIn, rOut) && Apart(rIn, wOut) && Apart(wIn, rOut) && Apart(wIn, wOut)
    requires Apart(rOut, wOut)
    modifies rIn, rIn.nodes`next, rIn.nodes`freed, wIn, wIn.nodes`next, wIn.nodes`freed
    modifies rOut, rOut.nodes`next, rOut.nodes`freed, wOut, wOut.nodes`next, wOut.nodes`freed
    ensures Emptied(rIn) && Emptied(wIn) && Emptied(rOut) && Emptied(wOut)
  {
    hide Distinct, Refs;
    EmptyBoth(rIn, wIn);
    EmptyBoth(rOut, wOut);
  }

  method EmptyBoth<T>(r: Queue<T>, w: Queue<T>)
    requires r.Valid() && w.Valid() && Apart(r, w)
    modifies r, r.nodes`next, r.nodes`freed, w, w.nodes`next, w.nodes`freed
    ensures Emptied(r) && Emptied(w)
  {
    hide Distinct, Refs;
    Empty(r);
    Empty(w);
  }

  ghost predicate Emptied<T>(q: Queue<T>)
    reads q
  {
    q.nodes == [] && q.head == null && q.tail == null
  }

  /** `remove_all_mappings` and then `remove_all_connections` */
  method RemoveMappingsAndConnections(connections: Queue<Conn>, mappings: Queue<Mapping>, ghost s: Sys)
    returns (ghost t: Sys)
    requires connections.Valid() && mappings.Valid() && Apart(connections, mappings)
    requires Agree(connections.Contents(), s) && s.locked && mappings.Contents() == s.mappings
    modifies connections, connections.nodes`next, connections.nodes`freed
    modifies mappings, mappings.nodes`next, mappings.nodes`freed
    ensures connections.Valid() && mappings.Valid() && connections.Contents() == []
    ensures Smaller(old(mappings.nodes), mappings)
    ensures var cs := old(connections.Contents());
            t == Run(Run(s, Clears(cs)), Closes(cs)) && t.mappings == Keep(s.mappings, BySockets(Sockets(cs)))
    ensures Agree([], t) && SameQueues(s, t) && mappings.Contents() == t.mappings
  {
    hide Agree, Run, Keep, Sockets, Distinct, Refs, Apart;
    ghost var cs := connections.Contents();
    ghost var u := RemoveAllMappings(connections, mappings, s);
    t := RemoveAllConnections(connections, mappings, u);
    KeepTwice(s.mappings, Sockets(cs), Sockets(cs));
    assert Sockets(cs) + Sockets(cs) == Sockets(cs);
  }

  lemma EmptiedQueue<T>(q: Queue<T>)
    requires Emptied(q)
    ensures q.Valid() && q.Contents() == []
  {
  }

  /** Mappings and connections go, and the emptied queues are not touched. */
  method RemoveRestAside(connections: Queue<Conn>, mappings: Queue<Mapping>,
                         rIn: Queue<InMessage>, wIn: Queue<InMessage>, rOut: Queue<Pdu>, wOut: Queue<Pdu>, ghost s: Sys)
    returns (ghost t: Sys)
    requires connections.Valid() && mappings.Valid() && Apart(connections, mappings)
    requires Emptied(rIn) && Emptied(wIn) && Emptied(rOut) && Emptied(wOut)
    requires Beside(connections, rIn, wIn, rOut, wOut) && Beside(mappings, rIn, wIn, rOut, wOut)
    requires Agree(connections.Contents(), s) && s.locked && mappings.Contents() == s.mappings
    modifies connections, connections.nodes`next, connections.nodes`freed
    modifies mappings, mappings.nodes`next, mappings.nodes`freed
    ensures connections.Valid() && mappings.Valid() && connections.Contents() == []
    ensures Emptied(rIn) && Emptied(wIn) && Emptied(rOut) && Emptied(wOut)
    ensures var cs := old(connections.Contents());
            t == Run(Run(s, Clears(cs)), Closes(cs)) && t.mappings == Keep(s.mappings, BySockets(Sockets(cs)))
    ensures Agree([], t) && SameQueues(s, t) && mappings.Contents() == t.mappings
  {
    hide Distinct, Refs, Agree, Run, Keep, Sockets, SameQueues;
    t := RemoveMappingsAndConnections(connections, mappings, s);
  }

  /** A queue that has no memory in common with the four message queues. */
  ghost predicate Beside<T>(q: Queue<T>, rIn: Queue<InMessage>, wIn: Queue<InMessage>, rOut: Queue<Pdu>,
                            wOut: Queue<Pdu>)
    reads q, rIn, wIn, rOut, wOut
  {
    Apart(q, rIn) && Apart(q, wIn) && Apart(q, rOut) && Apart(q, wOut)
  }

  /** The messages go, and connections and mappings are not touched. */
  method RemoveAllMessagesAside(connections: Queue<Conn>, mappings: Queue<Mapping>,
                                rIn: Queue<InMessage>, wIn: Queue<InMessage>, rOut: Queue<Pdu>, wOut: Queue<Pdu>)
    requires connections.Valid() && mappings.Valid() && rIn.Valid() && wIn.Valid() && rOut.Valid() && wOut.Valid()
    requires Apart(rIn, wIn) && Apart(rIn, rOut) && Apart(rIn, wOut) && Apart(wIn, rOut) && Apart(wIn, wOut)
    requires Apart(rOut, wOut)
    requires Beside(connections, rIn, wIn, rOut, wOut) && Beside(mappings, rIn, wIn, rOut, wOut)
    modifies rIn, rIn.nodes`next, rIn.nodes`freed, wIn, wIn.nodes`next, wIn.nodes`freed
    modifies rOut, rOut.nodes`next, rOut.nodes`freed, wOut, wOut.nodes`next, wOut.nodes`freed
    ensures Emptied(rIn) && Emptied(wIn) && Emptied(rOut) && Emptied(wOut)
    ensures unchanged(connections) && connections.Valid() && connections.Contents() == old(connections.Contents())
    ensures unchanged(mappings) && mappings.Valid() && mappings.Contents() == old(mappings.Contents())
    ensures Beside(connections, rIn, wIn, rOut, wOut) && Beside(mappings, rIn, wIn, rOut, wOut)
  {
    hide Distinct, Refs;
    RemoveAllMessages(rIn, wIn, rOut, wOut);
  }

  /** All the lists of the relay, none of which has memory in common with another. */
  ghost predicate Separated(connections: Queue<Conn>, mappings: Queue<Mapping>,
                            rIn: Queue<InMessage>, wIn: Queue<InMessage>, rOut: Queue<Pdu>, wOut: Queue<Pdu>)
    reads connections, connections.nodes, mappings, mappings.nodes, rIn, rIn.nodes, wIn, wIn.nodes
    reads rOut, rOut.nodes, wOut, wOut.nodes
  {
    && connections.Valid() && mappings.Valid() && rIn.Valid() && wIn.Valid() && rOut.Valid() && wOut.Valid()
    && Apart(rIn, wIn) && Apart(rIn, rOut) && Apart(rIn, wOut) && Apart(wIn, rOut) && Apart(wIn, wOut)
       && Apart(rOut, wOut)
    && Beside(connections, rIn, wIn, rOut, wOut) && Beside(mappings, rIn, wIn, rOut, wOut)
       && Apart(connections, mappings)
  }

  /** The lists are valid and hold what they hold in the state `s`. */
  ghost predicate Holding(connections: Queue<Conn>, mappings: Queue<Mapping>, rIn: Queue<InMessage>,
                          wIn: Queue<InMessage>,
                          rOut: Queue<Pdu>, wOut: Queue<Pdu>, s: Sys)
    reads connections, connections.nodes, mappings, mappings.nodes, rIn, rIn.nodes, wIn, wIn.nodes
    reads rOut, rOut.nodes, wOut, wOut.nodes
  {
    && connections.Valid() && mappings.Valid() && rIn.Valid() && wIn.Valid() && rOut.Valid() && wOut.Valid()
    && Agree(connections.Contents(), s) && mappings.Contents() == s.mappings
    && rIn.Contents() == s.rIn && wIn.Contents() == s.wIn && rOut.Contents() == s.rOut && wOut.Contents() == s.wOut
  }

  /** Messages, mappings and connections go, in this order. */
  method ClearLists(connections: Queue<Conn>, mappings: Queue<Mapping>,
                    rIn: Queue<InMessage>, wIn: Queue<InMessage>, rOut: Queue<Pdu>, wOut: Queue<Pdu>, ghost s: Sys)
    returns (ghost t: Sys)
    requires Separated(connections, mappings, rIn, wIn, rOut, wOut) && !s.locked
    requires Holding(connections, mappings, rIn, wIn, rOut, wOut, s)
    modifies connections, connections.nodes`next, connections.nodes`freed
    modifies mappings, mappings.nodes`next, mappings.nodes`freed
    modifies rIn, rIn.nodes`next, rIn.nodes`freed, wIn, wIn.nodes`next, wIn.nodes`freed
    modifies rOut, rOut.nodes`next, rOut.nodes`freed, wOut, wOut.nodes`next, wOut.nodes`freed
    ensures t == Run(s, CleanupSteps(old(connections.Contents()))) && t.server == FRESH_LINK && !t.locked
    ensures t.rIn == [] && t.wIn == [] && t.rOut == [] && t.wOut == [] && connections.Contents() == []
    ensures t.mappings == Keep(s.mappings, BySockets(Sockets(old(connections.Contents()))))
    ensures Holding(connections, mappings, rIn, wIn, rOut, wOut, t)
  {
    hide Agree, Distinct, Refs, Run, Emptied, Beside, Separate, Keep, Sockets;
    ghost var cs := connections.Contents();
    Drained(cs, s);
    RemoveAllMessagesAside(connections, mappings, rIn, wIn, rOut, wOut);
    ghost var u := RemoveRestAside(connections, mappings, rIn, wIn, rOut, wOut, Run(s, DRAINS));
    EmptiedQueue(rIn);
    EmptiedQueue(wIn);
    EmptiedQueue(rOut);
    EmptiedQueue(wOut);
    CleanedUp(cs, s, u);
    t := u.(locked := false);
  }

  /** `cleanup`: a run of the state machine through all its critical sections. */
  method Cleanup(conn: Connection, connections: Queue<Conn>, mappings: Queue<Mapping>,
                 rIn: Queue<InMessage>, wIn: Queue<InMessage>, rOut: Queue<Pdu>, wOut: Queue<Pdu>, ghost s: Sys)
    returns (ghost t: Sys)
    requires conn.Valid() && !s.locked
    requires Separated(connections, mappings, rIn, wIn, rOut, wOut)
    requires Holding(connections, mappings, rIn, wIn, rOut, wOut, s)
    modifies conn`rPtr, conn`wPtr, conn`received, conn`queued, conn`sent, conn`loaded
    modifies connections, connections.nodes`next, connections.nodes`freed
    modifies mappings, mappings.nodes`next, mappings.nodes`freed
    modifies rIn, rIn.nodes`next, rIn.nodes`freed, wIn, wIn.nodes`next, wIn.nodes`freed
    modifies rOut, rOut.nodes`next, rOut.nodes`freed, wOut, wOut.nodes`next, wOut.nodes`freed
    ensures conn.Valid() && conn.State() == t.server == FRESH_LINK
    ensures t == Run(s, CleanupSteps(old(connections.Contents()))) && !t.locked
    ensures t.rIn == [] && t.wIn == [] && t.rOut == [] && t.wOut == [] && connections.Contents() == []
    ensures t.mappings == Keep(s.mappings, BySockets(Sockets(old(connections.Contents()))))
    ensures Holding(connections, mappings, rIn, wIn, rOut, wOut, t)
    ensures conn.rPtr == conn.wPtr == 0 && conn.received == conn.sent == [] && conn.queued == conn.loaded == []
    ensures rIn.Contents() == wIn.Contents() == [] && rOut.Contents() == wOut.Contents() == []
    ensures forall m :: m in mappings.Contents() <==>
              && m in old(mappings.Contents())
              && forall i :: 0 <= i < |old(connections.Contents())| ==>
                   m.socket != old(connections.Contents())[i].socket
  {
    hide Run, Separated, Holding, Keep, Sockets, CleanupSteps, Agree, Refs, Distinct;
    ghost var cs, ms := connections.Contents(), mappings.Contents();
    assert ms == s.mappings by { HoldsAll(connections, mappings, rIn, wIn, rOut, wOut, s); }
    conn.Reset();
    t := ClearLists(connections, mappings, rIn, wIn, rOut, wOut, s);
    HoldsAll(connections, mappings, rIn, wIn, rOut, wOut, t);
    MappingsOfNone(cs, ms);
  }

  lemma HoldsAll(connections: Queue<Conn>, mappings: Queue<Mapping>, rIn: Queue<InMessage>, wIn: Queue<InMessage>,
                 rOut: Queue<Pdu>, wOut: Queue<Pdu>, s: Sys)
    requires Holding(connections, mappings, rIn, wIn, rOut, wOut, s)
    ensures mappings.Contents() == s.mappings
    ensures rIn.Contents() == s.rIn && wIn.Contents() == s.wIn && rOut.Contents() == s.rOut && wOut.Contents() == s.wOut
  {
    hide Agree, Refs;
  }
}

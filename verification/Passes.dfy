/**
 * What the passes of the reading and writing threads over the connection list amount to, as functions on
 * lists, and how they agree with the steps of the state machine.
 */
module Passes {
  import opened Bytes
  import opened Pdus
  import opened Framing
  import opened Parts
  import opened Relay
  import opened MuxerSystem
  import opened MuxerInvariant
  import opened Transparency
  import opened Connections

  datatype Conn = Conn(socket: int, link: Link)

  predicate DistinctSockets(cs: seq<Conn>) {
    forall i, j :: 0 <= i < j < |cs| ==> cs[i].socket != cs[j].socket
  }

  predicate Listed(cs: seq<Conn>, socket: int) {
    exists i :: 0 <= i < |cs| && cs[i].socket == socket
  }

  /** What `select` reported, and what `recv` answers when it is called for a socket. */
  datatype Ready = Ready(readable: set<int>, broken: set<int>, net: map<int, Recv>)

  function NetAnswer(socket: int, ready: Ready): Recv {
    if socket in ready.net then ready.net[socket] else WouldBlock
  }

  /** A connection goes on unless its socket is broken, closed or failed. */
  predicate Survives(socket: int, ready: Ready) {
    socket !in ready.broken
      && (socket in ready.readable ==> NetAnswer(socket, ready).Data? || NetAnswer(socket, ready).WouldBlock?)
  }

  /** The octets received for a socket in this pass. */
  function Incoming(socket: int, ready: Ready): seq<byte> {
    if socket in ready.readable && NetAnswer(socket, ready).Data? then NetAnswer(socket, ready).bytes else []
  }

  /** `recv` is offered the free part of the buffer. */
  predicate Fits(c: Conn, ready: Ready) {
    |c.link.r| + |Incoming(c.socket, ready)| <= BUFFER_KSIZE
  }

  predicate AllFit(cs: seq<Conn>, ready: Ready) {
    forall i :: 0 <= i < |cs| ==> Fits(cs[i], ready)
  }

  // ---------------------------------------------------------------- one plain pass

  function Refreshed(c: Conn, ready: Ready): Conn {
    c.(link := LinkReceive(c.link, Incoming(c.socket, ready)))
  }

  /** The connections after a pass that looks at each of them once. */
  function PassConns(cs: seq<Conn>, ready: Ready): seq<Conn> {
    if cs == [] then []
    else
      var c := cs[|cs| - 1];
      PassConns(cs[..|cs| - 1], ready) + (if Survives(c.socket, ready) then [Refreshed(c, ready)] else [])
  }

  /** The requests it queues. */
  function PassQueued(cs: seq<Conn>, ready: Ready): seq<InMessage> {
    if cs == [] then []
    else
      var c := cs[|cs| - 1];
      PassQueued(cs[..|cs| - 1], ready) +
      (if Survives(c.socket, ready) then Tagged(c.socket, Parse(c.link.r + Incoming(c.socket, ready)).pdus) else [])
  }

  /** The sockets it closes. */
  function PassClosed(cs: seq<Conn>, ready: Ready): set<int> {
    if cs == [] then {}
    else
      var c := cs[|cs| - 1];
      PassClosed(cs[..|cs| - 1], ready) + (if Survives(c.socket, ready) then {} else {c.socket})
  }

  /** One more connection in a pass. */
  lemma PassOneMore(cs: seq<Conn>, p: nat, ready: Ready)
    requires p < |cs|
    ensures PassConns(cs[..p + 1], ready) ==
            PassConns(cs[..p], ready) + (if Survives(cs[p].socket, ready) then [Refreshed(cs[p], ready)] else [])
    ensures PassQueued(cs[..p + 1], ready) == PassQueued(cs[..p], ready) +
            (if Survives(cs[p].socket, ready)
             then Tagged(cs[p].socket, Parse(cs[p].link.r + Incoming(cs[p].socket, ready)).pdus) else [])
    ensures PassClosed(cs[..p + 1], ready) ==
            PassClosed(cs[..p], ready) + (if Survives(cs[p].socket, ready) then {} else {cs[p].socket})
  {
    hide Survives, Refreshed, Parse, Tagged, Incoming;
    var t := cs[..p + 1];
    assert t[..p] == cs[..p] && t[p] == cs[p];
  }

  /**
   * Where a plain pass leaves its traces: the connections that go on are those at the positions `at`, and what the
   * n-th of them queued stands between `offs[n]` and `offs[n + 1]`.
   */
  ghost predicate Traced(cs: seq<Conn>, ready: Ready, ds: seq<Conn>, q: seq<InMessage>, at: seq<nat>, offs: seq<nat>) {
    && |at| == |ds| && |offs| == |at| + 1 && offs[0] == 0 && offs[|at|] == |q|
    && (forall i, j :: 0 <= i < j < |at| ==> at[i] < at[j])
    && (forall n :: 0 <= n < |at| ==> at[n] < |cs| && Trace(cs[at[n]], ready, ds[n], q, offs[n], offs[n + 1]))
    && (forall i: nat :: i < |cs| ==> (i in at <==> Survives(cs[i].socket, ready)))
  }

  ghost predicate Trace(c: Conn, ready: Ready, d: Conn, q: seq<InMessage>, from: nat, to: nat) {
    && d == Refreshed(c, ready) && from <= to <= |q|
    && q[from..to] == Tagged(c.socket, Parse(c.link.r + Incoming(c.socket, ready)).pdus)
  }

  lemma {:induction false} TraceAll(cs: seq<Conn>, ready: Ready) returns (at: seq<nat>, offs: seq<nat>)
    ensures Traced(cs, ready, PassConns(cs, ready), PassQueued(cs, ready), at, offs)
  {
    hide Traced, Tagged, Parse, Incoming, Refreshed, Survives;
    if cs == [] {
      at, offs := [], [0];
      TracedNothing(ready);
    } else {
      var n := |cs| - 1;
      var c, ds, q := cs[n], PassConns(cs[..n], ready), PassQueued(cs[..n], ready);
      at, offs := TraceAll(cs[..n], ready);
      if Survives(c.socket, ready) {
        TracedMore(cs, ready, ds, q, at, offs);
        at, offs := at + [n], offs + [|PassQueued(cs, ready)|];
      } else {
        TracedSame(cs, ready, ds, q, at, offs);
        assert ds + [] == ds && q + [] == q;
      }
    }
  }

  lemma TracedNothing(ready: Ready)
    ensures Traced([], ready, [], [], [], [0])
  {
  }

  /** A connection that goes on. */
  lemma TracedMore(cs: seq<Conn>, ready: Ready, ds: seq<Conn>, q: seq<InMessage>, at: seq<nat>, offs: seq<nat>)
    requires cs != [] && Traced(cs[..|cs| - 1], ready, ds, q, at, offs)
    requires Survives(cs[|cs| - 1].socket, ready)
    ensures var c, n := cs[|cs| - 1], |cs| - 1;
            var more := q + Tagged(c.socket, Parse(c.link.r + Incoming(c.socket, ready)).pdus);
            Traced(cs, ready, ds + [Refreshed(c, ready)], more, at + [n], offs + [|more|])
  {
    hide Survives, Refreshed, Parse, Tagged, Incoming;
    var c, n := cs[|cs| - 1], |cs| - 1;
    var more := q + Tagged(c.socket, Parse(c.link.r + Incoming(c.socket, ready)).pdus);
    var at', offs', ds' := at + [n], offs + [|more|], ds + [Refreshed(c, ready)];
    forall i: nat ensures i in at' <==> i in at || i == n { InMore(at, n, i); }
    forall m | 0 <= m < |at'| ensures at'[m] < |cs| && Trace(cs[at'[m]], ready, ds'[m], more, offs'[m], offs'[m + 1]) {
      if m < |at| { assert Trace(cs[..n][at[m]], ready, ds[m], q, offs[m], offs[m + 1]); }
    }
  }

  /** A connection that does not. */
  lemma TracedSame(cs: seq<Conn>, ready: Ready, ds: seq<Conn>, q: seq<InMessage>, at: seq<nat>, offs: seq<nat>)
    requires cs != [] && Traced(cs[..|cs| - 1], ready, ds, q, at, offs)
    requires !Survives(cs[|cs| - 1].socket, ready)
    ensures Traced(cs, ready, ds, q, at, offs)
  {
    hide Survives, Trace;
    var n := |cs| - 1;
    forall m | 0 <= m < |at| ensures at[m] < |cs| && Trace(cs[at[m]], ready, ds[m], q, offs[m], offs[m + 1]) {
      assert Trace(cs[..n][at[m]], ready, ds[m], q, offs[m], offs[m + 1]);
    }
  }

  /**
   * What a connection that goes on has become, and what it has queued from one position to another, from what
   * `select` reported and `recv` answers alone: what `recv` gives is received if the socket is readable.
   */
  ghost predicate WentOn(c: Conn, ready: Ready, d: Conn, q: seq<InMessage>, from: nat, to: nat) {
    var x := c.socket;
    && from <= to <= |q|
    && if x in ready.readable && x in ready.net && ready.net[x].Data? then
         var b := ready.net[x].bytes;
         var p := Parse(c.link.r + b);
         && d == Conn(x, c.link.(r := p.rest, received := c.link.received + b, queued := c.link.queued + p.pdus))
         && q[from..to] == Tagged(x, p.pdus)
       else
         var p := Parse(c.link.r);
         && d == Conn(x, c.link.(r := p.rest, queued := c.link.queued + p.pdus))
         && q[from..to] == Tagged(x, p.pdus)
  }

  /** Readable with data: exactly these octets are received, and the complete frames are queued under the socket. */
  lemma WentOnWithData(c: Conn, ready: Ready, d: Conn, q: seq<InMessage>, from: nat, to: nat, b: seq<byte>)
    requires WentOn(c, ready, d, q, from, to)
    requires c.socket in ready.readable && c.socket in ready.net && ready.net[c.socket] == Data(b)
    ensures d.socket == c.socket && d.link.received == c.link.received + b && d.link.r == Parse(c.link.r + b).rest
    ensures d.link.queued == c.link.queued + Parse(c.link.r + b).pdus
    ensures to == from + |Parse(c.link.r + b).pdus| <= |q|
    ensures forall k :: from <= k < to ==> q[k] == InMessage(c.socket, Parse(c.link.r + b).pdus[k - from])
    ensures d.link.w == c.link.w && d.link.sent == c.link.sent && d.link.loaded == c.link.loaded
  {
    hide Parse;
    assert forall k :: from <= k < to ==> q[k] == q[from..to][k - from];
  }

  /** Not readable, or nothing to be read yet: nothing is received, and no frame becomes complete. */
  lemma WentOnWithout(c: Conn, ready: Ready, d: Conn, q: seq<InMessage>, from: nat, to: nat)
    requires WentOn(c, ready, d, q, from, to) && !HasFrame(c.link.r)
    requires c.socket !in ready.readable || c.socket !in ready.net || ready.net[c.socket] == WouldBlock
    ensures d == c && from == to
  {
    NoFrame(c.link.r);
    assert c.link.queued + [] == c.link.queued;
  }

  /**
   * What a pass does: a connection goes on unless its socket is broken, or readable and closed or failed; those that
   * go on, at the positions `at`, keep their order; and what the n-th of them queued stands from `offs[n]` to
   * `offs[n + 1]`.
   */
  lemma PassExactly(cs: seq<Conn>, ready: Ready) returns (at: seq<nat>, offs: seq<nat>)
    ensures |at| == |PassConns(cs, ready)| && forall i, j :: 0 <= i < j < |at| ==> at[i] < at[j]
    ensures forall n :: 0 <= n < |at| ==> at[n] < |cs|
    ensures forall i: nat :: i < |cs| ==>
              var x := cs[i].socket;
              (i in at <==>
                x !in ready.broken
                && !(x in ready.readable && x in ready.net && (ready.net[x].Closed? || ready.net[x].Failed?)))
    ensures |offs| == |at| + 1 && offs[0] == 0 && offs[|at|] == |PassQueued(cs, ready)|
    ensures forall n :: 0 <= n < |at| ==>
              WentOn(cs[at[n]], ready, PassConns(cs, ready)[n], PassQueued(cs, ready), offs[n], offs[n + 1])
  {
    hide Parse, PassConns, PassQueued, Trace, WentOn;
    at, offs := TraceAll(cs, ready);
    forall n | 0 <= n < |at|
      ensures WentOn(cs[at[n]], ready, PassConns(cs, ready)[n], PassQueued(cs, ready), offs[n], offs[n + 1])
    {
      TraceIs(cs[at[n]], ready, PassConns(cs, ready)[n], PassQueued(cs, ready), offs[n], offs[n + 1]);
    }
  }

  lemma TraceIs(c: Conn, ready: Ready, d: Conn, q: seq<InMessage>, from: nat, to: nat)
    requires Trace(c, ready, d, q, from, to)
    ensures WentOn(c, ready, d, q, from, to)
  {
    hide Parse;
    assert c.link.r + [] == c.link.r && c.link.received + [] == c.link.received;
  }

  /** The mappings that are left are those of no connection that was removed. */
  lemma MappingsLeft(cs: seq<Conn>, ready: Ready, ms: seq<Mapping>, at: seq<nat>)
    requires forall i: nat :: i < |cs| ==>
               var x := cs[i].socket;
               (i in at <==>
                 x !in ready.broken
                 && !(x in ready.readable && x in ready.net && (ready.net[x].Closed? || ready.net[x].Failed?)))
    ensures forall m :: m in Keep(ms, BySockets(PassClosed(cs, ready))) <==>
            m in ms && forall i: nat :: i < |cs| && i !in at ==> m.socket != cs[i].socket
  {
    hide Keep, PassClosed;
    ClosedExactly(cs, ready);
    KeepIsRest(ms, BySockets(PassClosed(cs, ready)));
  }

  /** The mappings that are left when those of all these connections are removed. */
  lemma MappingsOfNone(cs: seq<Conn>, ms: seq<Mapping>)
    ensures forall m :: m in Keep(ms, BySockets(Sockets(cs))) <==>
            m in ms && forall i :: 0 <= i < |cs| ==> m.socket != cs[i].socket
  {
    hide Keep;
    KeepIsRest(ms, BySockets(Sockets(cs)));
    forall m: Mapping
      ensures m.socket in Sockets(cs) <==> !forall i :: 0 <= i < |cs| ==> m.socket != cs[i].socket {}
  }

  /** Exactly the sockets of the others are closed. */
  lemma ClosedExactly(cs: seq<Conn>, ready: Ready)
    ensures forall x :: x in PassClosed(cs, ready) <==>
            (exists i :: 0 <= i < |cs| && cs[i].socket == x)
            && (x in ready.broken
                || (x in ready.readable && x in ready.net && (ready.net[x].Closed? || ready.net[x].Failed?)))
  {
    hide PassClosed;
    forall x ensures x in PassClosed(cs, ready) <==> Listed(cs, x) && !Survives(x, ready) {
      ClosedIs(cs, ready, x);
    }
  }

  lemma {:induction false} ClosedIs(cs: seq<Conn>, ready: Ready, x: int)
    ensures x in PassClosed(cs, ready) <==> Listed(cs, x) && !Survives(x, ready)
  {
    hide Survives, Listed;
    NoOthers(x);
    if cs != [] {
      var n := |cs| - 1;
      ClosedIs(cs[..n], ready, x);
      OthersOneMore(cs[..n], cs[n], x);
      assert cs == cs[..n] + [cs[n]];
    }
  }

  /** Parsing a leftover again finds nothing: looking at a connection twice is looking at it once. */
  lemma RevisitIsIdle(l: Link)
    requires !HasFrame(l.r)
    ensures LinkReceive(l, []) == l && Parse(l.r + []).pdus == []
  {
    assert l.r + [] == l.r && l.received + [] == l.received && l.queued + [] == l.queued;
  }

  // ---------------------------------------------------------------- agreeing with the state machine

  /** The list holds exactly the live connections. */
  predicate Agree(cs: seq<Conn>, s: Sys) {
    && DistinctSockets(cs) && |s.h.gens| == |s.mappings|
    && (forall i :: 0 <= i < |cs| ==> cs[i].socket in s.clients && s.clients[cs[i].socket].link == cs[i].link)
    && (forall socket :: socket in s.clients ==> Listed(cs, socket))
  }

  ghost predicate Reaches(a: Sys, b: Sys) {
    exists steps :: b == Run(a, steps)
  }

  lemma ReachesSelf(a: Sys)
    ensures Reaches(a, a)
  {
    assert Run(a, []) == a;
  }

  lemma ReachesNext(a: Sys, b: Sys, step: Step)
    requires Reaches(a, b)
    ensures Reaches(a, Next(b, step))
  {
    hide Next;
    var steps :| b == Run(a, steps);
    var more := steps + [step];
    assert more[..|more| - 1] == steps;
    assert Run(a, more) == Next(b, step);
  }

  /** A pass keeps whatever every step keeps. */
  lemma ReachesInv(a: Sys, b: Sys)
    requires Inv(a) && Reaches(a, b)
    ensures Inv(b)
  {
    hide Inv, Run;
    var steps :| b == Run(a, steps);
    InvAfter(a, steps);
  }

  lemma {:induction false} InvAfter(a: Sys, steps: seq<Step>)
    requires Inv(a)
    ensures Inv(Run(a, steps))
  {
    hide Inv, Next;
    if steps != [] {
      InvAfter(a, steps[..|steps| - 1]);
      InvStep(Run(a, steps[..|steps| - 1]), steps[|steps| - 1]);
    }
  }

  lemma AgreeAt(cs: seq<Conn>, s: Sys, i: nat)
    requires Agree(cs, s) && i < |cs|
    ensures cs[i].socket in s.clients && s.clients[cs[i].socket].link == cs[i].link && |s.h.gens| == |s.mappings|
  {
  }

  lemma AgreeUpdate(cs: seq<Conn>, s: Sys, t: Sys, i: nat, link: Link)
    requires Agree(cs, s) && i < |cs| && |t.h.gens| == |t.mappings|
    requires t.clients == s.clients[cs[i].socket := s.clients[cs[i].socket].(link := link)]
    ensures Agree(cs[i := cs[i].(link := link)], t)
  {
    var ds := cs[i := cs[i].(link := link)];
    forall socket | socket in t.clients ensures Listed(ds, socket) {
      var k :| 0 <= k < |cs| && cs[k].socket == socket;
      assert ds[k].socket == socket;
    }
  }

  lemma AgreeReceive(cs: seq<Conn>, s: Sys, i: nat, data: seq<byte>)
    requires Agree(cs, s) && i < |cs| && |cs[i].link.r| + |data| <= BUFFER_KSIZE
    ensures var c := cs[i];
            var t := Next(s, ReceiveClient(c.socket, data));
            && Agree(cs[i := c.(link := LinkReceive(c.link, data))], t)
            && t.rIn == s.rIn + Tagged(c.socket, Parse(c.link.r + data).pdus)
            && t.wIn == s.wIn && t.mappings == s.mappings
  {
    hide Parse, Tagged, LinkReceive, Agree;
    var c := cs[i];
    AgreeAt(cs, s, i);
    AgreeUpdate(cs, s, DoReceiveClient(s, c.socket, data), i, LinkReceive(c.link, data));
  }

  lemma AgreeClose(cs: seq<Conn>, s: Sys, i: nat)
    requires Agree(cs, s) && i < |cs|
    ensures var t := Next(s, Close(cs[i].socket));
            && Agree(cs[..i] + cs[i + 1..], t)
            && t.rIn == s.rIn && t.wIn == s.wIn && t.mappings == Keep(s.mappings, BySockets({cs[i].socket}))
  {
    hide Keep, KeepGens;
    var ds, t := cs[..i] + cs[i + 1..], Next(s, Close(cs[i].socket));
    forall socket | socket in t.clients ensures Listed(ds, socket) {
      var k :| 0 <= k < |cs| && cs[k].socket == socket;
      assert ds[if k < i then k else k - 1].socket == socket;
    }
  }

  // ---------------------------------------------------------------- the restarting scan

  /** The flags of a socket are still as `select` reported them. */
  predicate Unvisited(socket: int, ready: Ready, readable: set<int>, broken: set<int>) {
    (socket in readable <==> socket in ready.readable) && (socket in broken <==> socket in ready.broken)
  }

  /** A connection that was looked at: its flags are consumed and its buffer holds no complete frame. */
  predicate Settled(c: Conn, readable: set<int>, broken: set<int>) {
    c.socket !in readable && c.socket !in broken && !HasFrame(c.link.r) && |c.link.r| <= BUFFER_KSIZE
  }

  lemma StillUnvisited(socket: int, other: int, ready: Ready, readable: set<int>, broken: set<int>, readable': set<int>,
                       broken': set<int>)
    requires socket != other && Unvisited(socket, ready, readable, broken)
    requires readable - {other} <= readable' <= readable && broken - {other} <= broken' <= broken
    ensures Unvisited(socket, ready, readable', broken')
  {
    assert socket in readable - {other} <==> socket in readable;
    assert socket in broken - {other} <==> socket in broken;
  }

  /**
   * Where the scan stands: the first `p` connections have been looked at and those of them that went on
   * are the first of the list. Their sockets are no longer flagged, those further on are as reported.
   */
  ghost predicate Scanning(cs: seq<Conn>, p: nat, ready: Ready, now: seq<Conn>, readable: set<int>, broken: set<int>) {
    && p <= |cs| && DistinctSockets(now)
    && now == PassConns(cs[..p], ready) + cs[p..]
    && (forall k :: 0 <= k < |now| - (|cs| - p) ==> Settled(now[k], readable, broken))
    && (forall k :: p <= k < |cs| ==> Unvisited(cs[k].socket, ready, readable, broken))
  }

  lemma ScanStart(cs: seq<Conn>, ready: Ready)
    requires DistinctSockets(cs)
    ensures Scanning(cs, 0, ready, cs, ready.readable, ready.broken)
  {
    hide Refreshed, HasFrame, Survives;
    assert PassConns(cs[..0], ready) == [];
    assert [] + cs[0..] == cs;
  }

  lemma ScanEnd(cs: seq<Conn>, p: nat, ready: Ready, now: seq<Conn>, readable: set<int>, broken: set<int>)
    requires Scanning(cs, p, ready, now, readable, broken) && |cs| - p <= 0
    ensures now == PassConns(cs, ready)
  {
    assert cs[..p] == cs && cs[p..] == [];
  }

  /** A connection that was looked at before, after the scan has started over. */
  lemma ScanAgain(cs: seq<Conn>, p: nat, ready: Ready, now: seq<Conn>, readable: set<int>, broken: set<int>, i: nat)
    requires Scanning(cs, p, ready, now, readable, broken) && i < |now| - (|cs| - p)
    ensures now[i].socket !in readable && now[i].socket !in broken && |now[i].link.r| <= BUFFER_KSIZE
    ensures LinkReceive(now[i].link, []) == now[i].link && Parse(now[i].link.r + []).pdus == []
  {
    RevisitIsIdle(now[i].link);
  }

  /** The first connection that was not looked at yet. */
  lemma ScanAhead(cs: seq<Conn>, p: nat, ready: Ready, now: seq<Conn>, readable: set<int>, broken: set<int>)
    requires Scanning(cs, p, ready, now, readable, broken) && p < |cs|
    ensures var i := |now| - (|cs| - p);
            && 0 <= i < |now| && now[i] == cs[p] && Unvisited(cs[p].socket, ready, readable, broken)
            && (forall k :: p < k < |cs| ==> now[i + k - p] == cs[k] && cs[k].socket != cs[p].socket)
  {
  }

  lemma ScanSurvivor(cs: seq<Conn>, p: nat, ready: Ready, now: seq<Conn>, readable: set<int>, broken: set<int>)
    requires Scanning(cs, p, ready, now, readable, broken) && p < |cs| && Survives(cs[p].socket, ready)
    requires Fits(cs[p], ready)
    ensures var i := |now| - (|cs| - p);
            && 0 <= i < |now|
            && Scanning(cs, p + 1, ready, now[i := Refreshed(cs[p], ready)], readable - {cs[p].socket}, broken)
  {
    hide Survives, Parse, HasFrame;
    PassOneMore(cs, p, ready);
    var i := |now| - (|cs| - p);
    ScanAhead(cs, p, ready, now, readable, broken);
    var done, c := PassConns(cs[..p], ready), Refreshed(cs[p], ready);
    assert now[i := c] == done + [c] + cs[p + 1..];
    assert cs[p].socket !in ready.broken by { Unbroken(cs[p].socket, ready); }
    var r := cs[p].link.r + Incoming(cs[p].socket, ready);
    NoFrame(r);
    ParseSmall(r);
  }

  lemma Unbroken(socket: int, ready: Ready)
    requires Survives(socket, ready)
    ensures socket !in ready.broken
  {
  }

  lemma DistinctWithout(cs: seq<Conn>, i: nat)
    requires DistinctSockets(cs) && i < |cs|
    ensures DistinctSockets(cs[..i] + cs[i + 1..])
  {
  }

  lemma ScanRemoved(cs: seq<Conn>, p: nat, ready: Ready, now: seq<Conn>, readable: set<int>, broken: set<int>,
                    readable': set<int>, broken': set<int>)
    requires Scanning(cs, p, ready, now, readable, broken) && p < |cs| && !Survives(cs[p].socket, ready)
    requires readable - {cs[p].socket} <= readable' <= readable && broken - {cs[p].socket} <= broken' <= broken
    ensures var i := |now| - (|cs| - p);
            && 0 <= i < |now|
            && Scanning(cs, p + 1, ready, now[..i] + now[i + 1..], readable', broken')
  {
    hide Survives, Parse, HasFrame, DistinctSockets, PassConns, Unvisited;
    PassOneMore(cs, p, ready);
    var i := |now| - (|cs| - p);
    ScanAhead(cs, p, ready, now, readable, broken);
    DistinctWithout(now, i);
    forall k | p + 1 <= k < |cs| ensures Unvisited(cs[k].socket, ready, readable', broken') {
      StillUnvisited(cs[k].socket, cs[p].socket, ready, readable, broken, readable', broken');
    }
    var done := PassConns(cs[..p], ready);
    assert done + [] == done;
    assert now[..i] == done && now[i + 1..] == cs[p + 1..];
  }

  // ---------------------------------------------------------------- removing connections

  /** The connections on other sockets. */
  function Others(cs: seq<Conn>, socket: int): seq<Conn> {
    if cs == [] then []
    else Others(cs[..|cs| - 1], socket) + (if cs[|cs| - 1].socket == socket then [] else [cs[|cs| - 1]])
  }

  lemma {:induction false} OthersConcat(a: seq<Conn>, b: seq<Conn>, socket: int)
    ensures Others(a + b, socket) == Others(a, socket) + Others(b, socket)
    decreases |b|
  {
    hide Others;
    if b == [] {
      NoOthers(socket);
      assert a + b == a;
    } else {
      var t, c := b[..|b| - 1], b[|b| - 1];
      var p := if c.socket == socket then [] else [c];
      calc {
        Others(a + b, socket);
        { assert a + b == (a + t) + [c]; OthersOneMore(a + t, c, socket); }
        Others(a + t, socket) + p;
        { OthersConcat(a, t, socket); Associate(Others(a, socket), Others(t, socket), p); }
        Others(a, socket) + (Others(t, socket) + p);
        { assert b == t + [c]; OthersOneMore(t, c, socket); }
        Others(a, socket) + Others(b, socket);
      }
    }
  }

  lemma {:induction false} OthersAll(cs: seq<Conn>, socket: int)
    requires !Listed(cs, socket)
    ensures Others(cs, socket) == cs
  {
    if cs != [] {
      var t := cs[..|cs| - 1];
      assert forall i :: 0 <= i < |t| ==> t[i] == cs[i];
      OthersAll(t, socket);
      assert cs[|cs| - 1].socket != socket;
    }
  }

  lemma NotBeside(cs: seq<Conn>, i: nat)
    requires DistinctSockets(cs) && i < |cs|
    ensures Listed(cs, cs[i].socket) && !Listed(cs[..i], cs[i].socket) && !Listed(cs[i + 1..], cs[i].socket)
  {
  }

  /** With distinct sockets exactly one entry goes. */
  lemma OthersWithout(cs: seq<Conn>, i: nat)
    requires DistinctSockets(cs) && i < |cs|
    ensures Listed(cs, cs[i].socket) && Others(cs, cs[i].socket) == cs[..i] + cs[i + 1..]
  {
    hide Others, DistinctSockets, Listed;
    NotBeside(cs, i);
    OthersMiddle(cs[..i], cs[i], cs[i + 1..]);
    assert cs == cs[..i] + [cs[i]] + cs[i + 1..];
  }

  lemma OthersMiddle(a: seq<Conn>, c: Conn, b: seq<Conn>)
    requires !Listed(a, c.socket) && !Listed(b, c.socket)
    ensures Others(a + [c] + b, c.socket) == a + b
  {
    hide Others, Listed;
    OthersAll(a, c.socket);
    OthersAll(b, c.socket);
    OthersOneMore(a, c, c.socket);
    OthersConcat(a + [c], b, c.socket);
    assert a + [] == a;
  }

  lemma AgreeAccept(cs: seq<Conn>, s: Sys, socket: int)
    requires Agree(cs, s) && socket > 0 && !Listed(cs, socket)
    ensures var t := Next(s, Step.Accept(socket));
            Agree(cs + [Conn(socket, FRESH_LINK)], t) && t.rIn == s.rIn && t.wIn == s.wIn && t.mappings == s.mappings
  {
    hide For;
    var ds, t := cs + [Conn(socket, FRESH_LINK)], Next(s, Step.Accept(socket));
    assert socket !in s.clients;
    forall x | x in t.clients ensures Listed(ds, x) {
      if x == socket {
        assert ds[|cs|].socket == x;
      } else {
        var i :| 0 <= i < |cs| && cs[i].socket == x;
        assert ds[i].socket == x;
      }
    }
  }

  lemma SocketsInit(cs: seq<Conn>, i: nat)
    requires i < |cs|
    ensures Sockets(cs[..i + 1]) == Sockets(cs[..i]) + {cs[i].socket}
  {
    var t, u := cs[..i + 1], cs[..i];
    forall x | x in Sockets(u) + {cs[i].socket} ensures x in Sockets(t) {
      if x == cs[i].socket {
        assert t[i].socket == x;
      } else {
        var k :| 0 <= k < |u| && u[k].socket == x;
        assert t[k].socket == x;
      }
    }
  }

  function Sockets(cs: seq<Conn>): set<int> {
    set i | 0 <= i < |cs| :: cs[i].socket
  }

  lemma NoSockets()
    ensures Sockets([]) == {}
  {
  }

  // ---------------------------------------------------------------- cleaning up

  /** `remove_all_mappings` and `remove_all_connections`, one connection after the other. */
  function Clears(cs: seq<Conn>): (steps: seq<Step>)
    ensures |steps| == |cs|
  {
    seq(|cs|, i requires 0 <= i < |cs| => ClearMappings(cs[i].socket))
  }

  function Closes(cs: seq<Conn>): (steps: seq<Step>)
    ensures |steps| == |cs|
  {
    seq(|cs|, i requires 0 <= i < |cs| => Close(cs[i].socket))
  }

  const DRAINS := [BeginCleanup, DrainRIn, DrainWIn, DrainROut, DrainWOut]

  /** The critical sections of a cleanup that finds the connections `cs`. */
  function CleanupSteps(cs: seq<Conn>): seq<Step> {
    DRAINS + Clears(cs) + Closes(cs) + [EndCleanup]
  }

  lemma RunSnoc(s: Sys, steps: seq<Step>, i: nat)
    requires i < |steps|
    ensures Run(s, steps[..i + 1]) == Next(Run(s, steps[..i]), steps[i])
  {
    hide Next;
    assert steps[..i + 1][..i] == steps[..i];
  }

  lemma {:induction false} RunConcat(s: Sys, a: seq<Step>, b: seq<Step>)
    ensures Run(s, a + b) == Run(Run(s, a), b)
    decreases |b|
  {
    hide Next, Run;
    if b == [] {
      RunNothing(Run(s, a));
      assert a + b == a;
    } else {
      var m := |b| - 1;
      RunConcat(s, a, b[..m]);
      assert (a + b)[..|a| + m] == a + b[..m] && (a + b)[..|a| + m + 1] == a + b && b[..m + 1] == b;
      RunSnoc(s, a + b, |a| + m);
      RunSnoc(Run(s, a), b, m);
    }
  }

  lemma RunNothing(s: Sys)
    ensures Run(s, []) == s
  {
  }

  /** The message queues and the server's buffers are as they were. */
  predicate SameQueues(s: Sys, t: Sys) {
    && t.rIn == s.rIn && t.wIn == s.wIn && t.rOut == s.rOut && t.wOut == s.wOut
    && t.server == s.server && t.locked == s.locked
  }

  /** The sections up to the removal of mappings. */
  lemma Drained(cs: seq<Conn>, s: Sys)
    requires Agree(cs, s) && !s.locked
    ensures var t := Run(s, DRAINS);
            && Agree(cs, t) && t.locked && t.server == FRESH_LINK && t.mappings == s.mappings
            && t.rIn == [] && t.wIn == [] && t.rOut == [] && t.wOut == []
  {
    hide Unread, Agree, Run;
    AgreeAgain(cs, s, s);
    FiveSteps(s);
    var a := Next(Next(Next(s, BeginCleanup), DrainRIn), DrainWIn);
    assert a.clients == s.clients && a.locked && a.mappings == s.mappings && a.h.gens == s.h.gens;
    assert a.server == FRESH_LINK && a.rIn == [] && a.wIn == [];
    AgreeAgain(cs, s, Run(s, DRAINS));
  }

  /** Agreement is about the connections. */
  lemma AgreeAgain(cs: seq<Conn>, s: Sys, t: Sys)
    requires Agree(cs, s) && t.clients == s.clients
    ensures |s.h.gens| == |s.mappings| && (|t.h.gens| == |t.mappings| ==> Agree(cs, t))
  {
  }

  lemma FiveSteps(s: Sys)
    ensures Run(s, DRAINS) == Next(Next(Next(Next(Next(s, BeginCleanup), DrainRIn), DrainWIn), DrainROut), DrainWOut)
  {
    hide Next, Run;
    RunNothing(s);
    assert DRAINS[..0] == [] && DRAINS[..5] == DRAINS;
    RunSnoc(s, DRAINS, 0);
    RunSnoc(s, DRAINS, 1);
    RunSnoc(s, DRAINS, 2);
    RunSnoc(s, DRAINS, 3);
    RunSnoc(s, DRAINS, 4);
  }

  /** Where the removal of mappings stands: those of the first `i` connections are gone. */
  ghost predicate Unmapping(cs: seq<Conn>, s0: Sys, i: nat, s: Sys) {
    && i <= |cs| && s == Run(s0, Clears(cs)[..i]) && Agree(cs, s) && s.locked && SameQueues(s0, s)
    && s.mappings == Keep(s0.mappings, BySockets(Sockets(cs[..i])))
  }

  lemma UnmapStart(cs: seq<Conn>, s: Sys)
    requires Agree(cs, s) && s.locked
    ensures Unmapping(cs, s, 0, s)
  {
    hide Agree;
    RunNothing(s);
    assert Clears(cs)[..0] == [] && cs[..0] == [];
    NoSockets();
    KeepAll(s.mappings);
  }

  lemma UnmapTurn(cs: seq<Conn>, s0: Sys, i: nat, s: Sys)
    requires Unmapping(cs, s0, i, s) && i < |cs|
    ensures var t := Next(s, ClearMappings(cs[i].socket));
            Unmapping(cs, s0, i + 1, t) && t.mappings == Keep(s.mappings, BySockets({cs[i].socket}))
  {
    hide Keep, KeepGens, Sockets, Run, Listed;
    RunSnoc(s0, Clears(cs), i);
    KeepTwice(s0.mappings, Sockets(cs[..i]), {cs[i].socket});
    SocketsInit(cs, i);
    assert cs[i].socket in s.clients;
  }

  lemma UnmapEnd(cs: seq<Conn>, s0: Sys, s: Sys)
    requires Unmapping(cs, s0, |cs|, s)
    ensures s == Run(s0, Clears(cs)) && Agree(cs, s) && s.locked && SameQueues(s0, s)
    ensures s.mappings == Keep(s0.mappings, BySockets(Sockets(cs)))
  {
    hide Agree, Run;
    assert Clears(cs)[..|cs|] == Clears(cs) && cs[..|cs|] == cs;
  }

  /** Where the removal of all connections stands: the first `i` are gone. */
  ghost predicate Clearing(cs: seq<Conn>, s0: Sys, i: nat, now: seq<Conn>, s: Sys) {
    && i <= |cs| && now == cs[i..] && s == Run(s0, Closes(cs)[..i]) && Agree(now, s) && SameQueues(s0, s)
    && s.mappings == Keep(s0.mappings, BySockets(Sockets(cs[..i])))
  }

  lemma ClearStart(cs: seq<Conn>, s: Sys)
    requires Agree(cs, s)
    ensures Clearing(cs, s, 0, cs, s)
  {
    hide Agree;
    RunNothing(s);
    assert Closes(cs)[..0] == [] && cs[..0] == [] && cs[0..] == cs;
    NoSockets();
    KeepAll(s.mappings);
  }

  lemma ClearEnd(cs: seq<Conn>, s0: Sys, i: nat, s: Sys)
    requires Clearing(cs, s0, i, [], s)
    ensures s == Run(s0, Closes(cs)) && Agree([], s) && SameQueues(s0, s)
    ensures s.mappings == Keep(s0.mappings, BySockets(Sockets(cs)))
  {
    hide Agree, Keep, Run;
    assert i == |cs| && Closes(cs)[..i] == Closes(cs) && cs[..i] == cs;
  }

  /** The first connection goes. */
  lemma ClearTurn(cs: seq<Conn>, s0: Sys, i: nat, now: seq<Conn>, s: Sys) returns (t: Sys)
    requires Clearing(cs, s0, i, now, s) && now != []
    ensures DistinctSockets(now) && Others(now, now[0].socket) == now[1..] && Listed(now, now[0].socket)
    ensures t.mappings == Keep(s.mappings, BySockets({now[0].socket}))
    ensures Clearing(cs, s0, i + 1, now[1..], t)
  {
    hide Keep, Others, Listed, Next, Sockets, DistinctSockets, Run;
    var socket := now[0].socket;
    Removed(now, s, 0);
    KeepTwice(s0.mappings, Sockets(cs[..i]), {socket});
    SocketsInit(cs, i);
    RunSnoc(s0, Closes(cs), i);
    CloseKeepsQueues(s, socket);
    assert now[..0] + now[1..] == now[1..] == cs[i + 1..];
    t := Next(s, Close(socket));
  }

  lemma CloseKeepsQueues(s: Sys, socket: int)
    ensures SameQueues(s, Next(s, Close(socket)))
  {
    hide Keep, KeepGens;
  }

  /** All sections of a cleanup together. */
  lemma CleanedUp(cs: seq<Conn>, s: Sys, t: Sys)
    requires Agree(cs, s) && !s.locked && Agree([], t)
    requires t == Run(Run(Run(s, DRAINS), Clears(cs)), Closes(cs)) && SameQueues(Run(s, DRAINS), t)
    ensures Next(t, EndCleanup) == Run(s, CleanupSteps(cs)) == t.(locked := false)
    ensures Agree([], t.(locked := false))
  {
    hide Run, Listed;
    Drained(cs, s);
    RunConcat(s, DRAINS, Clears(cs));
    RunConcat(s, DRAINS + Clears(cs), Closes(cs));
    RunConcat(s, DRAINS + Clears(cs) + Closes(cs), [EndCleanup]);
    RunSnoc(t, [EndCleanup], 0);
    RunNothing(t);
    assert [EndCleanup][..0] == [] && [EndCleanup][..1] == [EndCleanup];
  }

  /** The messages for sockets that are listed, in order. */
  function Addressed(ms: seq<InMessage>, cs: seq<Conn>): seq<InMessage> {
    if ms == [] then []
    else Addressed(ms[..|ms| - 1], cs) + (if Listed(cs, ms[|ms| - 1].socket) then [ms[|ms| - 1]] else [])
  }

  lemma NothingAddressed(cs: seq<Conn>)
    ensures Addressed([], cs) == []
  {
  }

  /** Where the dropping pass stands: the messages `done` were looked at, and `todo` were not. */
  ghost predicate Dropping(cs: seq<Conn>, s0: Sys, done: seq<InMessage>, todo: seq<InMessage>, s: Sys) {
    && Agree(cs, s) && Reaches(s0, s) && s.rIn == s0.rIn && s.mappings == s0.mappings
    && done + todo == s0.wIn && s.wIn == Addressed(done, cs) + todo
  }

  lemma DropStart(cs: seq<Conn>, s: Sys)
    requires Agree(cs, s)
    ensures Dropping(cs, s, [], s.wIn, s) && Addressed([], cs) == []
  {
    NothingAddressed(cs);
    ReachesSelf(s);
  }

  lemma DropEnd(cs: seq<Conn>, s0: Sys, done: seq<InMessage>, s: Sys)
    requires Dropping(cs, s0, done, [], s)
    ensures Agree(cs, s) && Reaches(s0, s) && s.rIn == s0.rIn && s.mappings == s0.mappings
    ensures done == s0.wIn && s.wIn == Addressed(done, cs)
  {
    hide Agree, Reaches, Addressed;
    assert done + [] == done && Addressed(done, cs) + [] == Addressed(done, cs);
  }

  /** The turn of one message: it stays, or goes in a step of the state machine. */
  lemma DropTurn(cs: seq<Conn>, s0: Sys, done: seq<InMessage>, todo: seq<InMessage>, s: Sys) returns (t: Sys)
    requires Dropping(cs, s0, done, todo, s) && todo != []
    ensures Dropping(cs, s0, done + [todo[0]], todo[1..], t)
    ensures Addressed(done + [todo[0]], cs) ==
            Addressed(done, cs) + (if Listed(cs, todo[0].socket) then [todo[0]] else [])
  {
    hide Agree, Reaches, Addressed, Listed, Next;
    var i, m := |Addressed(done, cs)|, todo[0];
    AddressedOneMore(done, m, cs);
    assert s.wIn[i] == m;
    t := s;
    if !Listed(cs, m.socket) {
      AgreeDrop(cs, s, i);
      ReachesNext(s0, s, Drop(i));
      t := Next(s, Drop(i));
    }
  }

  lemma AddressedOneMore(done: seq<InMessage>, m: InMessage, cs: seq<Conn>)
    ensures Addressed(done + [m], cs) == Addressed(done, cs) + (if Listed(cs, m.socket) then [m] else [])
  {
    hide Listed;
    assert (done + [m])[..|done|] == done;
  }

  /** Exactly the messages for a listed socket are kept; they keep their order. */
  lemma AddressedExactly(ms: seq<InMessage>, cs: seq<Conn>) returns (at: seq<nat>)
    ensures |at| == |Addressed(ms, cs)| && forall i, j :: 0 <= i < j < |at| ==> at[i] < at[j]
    ensures forall n :: 0 <= n < |at| ==> at[n] < |ms| && Addressed(ms, cs)[n] == ms[at[n]]
    ensures forall i: nat :: i < |ms| ==>
              (i in at <==> exists c :: 0 <= c < |cs| && cs[c].socket == ms[i].socket)
  {
    hide Addressed;
    at := AddressedAt(ms, cs);
    assert forall i: nat :: i < |ms| ==> (i in at <==> Listed(cs, ms[i].socket));
  }

  ghost predicate KeptAt(ms: seq<InMessage>, cs: seq<Conn>, at: seq<nat>) {
    && Picks(at, ms, Addressed(ms, cs))
    && (forall i: nat :: i in at ==> i < |ms|)
    && forall i: nat :: i < |ms| ==> (i in at <==> Listed(cs, ms[i].socket))
  }

  lemma {:induction false} AddressedAt(ms: seq<InMessage>, cs: seq<Conn>) returns (at: seq<nat>)
    ensures KeptAt(ms, cs, at)
  {
    hide KeptAt;
    if ms == [] {
      at := [];
      NothingKept(cs);
    } else {
      var n := |ms| - 1;
      at := AddressedAt(ms[..n], cs);
      KeptOneMore(ms, cs, at);
      if Listed(cs, ms[n].socket) { at := at + [n]; }
    }
  }

  lemma NothingKept(cs: seq<Conn>)
    ensures KeptAt([], cs, [])
  {
  }

  lemma KeptOneMore(ms: seq<InMessage>, cs: seq<Conn>, at: seq<nat>)
    requires ms != [] && KeptAt(ms[..|ms| - 1], cs, at)
    ensures var n := |ms| - 1;
            if Listed(cs, ms[n].socket) then KeptAt(ms, cs, at + [n]) else KeptAt(ms, cs, at)
  {
    hide Picks, Addressed, Listed;
    var n := |ms| - 1;
    AddressedOneMore(ms[..n], ms[n], cs);
    assert ms == ms[..n] + [ms[n]] && ms[..n + 1] == ms;
    assert Addressed(ms[..n], cs) + [] == Addressed(ms[..n], cs);
    PicksMore(at, ms, Addressed(ms[..n], cs), n);
    forall i: nat ensures i in at + [n] <==> i in at || i == n { InMore(at, n, i); }
  }

  /** No live client loses a message when the messages of closed sockets are dropped. */
  lemma {:induction false} AddressedKeeps(ms: seq<InMessage>, cs: seq<Conn>, socket: int)
    ensures For(socket, Addressed(ms, cs)) == if Listed(cs, socket) then For(socket, ms) else []
  {
    hide Listed;
    if ms != [] {
      var t, m := ms[..|ms| - 1], ms[|ms| - 1];
      AddressedKeeps(t, cs, socket);
      if Listed(cs, m.socket) {
        ForConcat(socket, Addressed(t, cs), [m]);
        ForOne(socket, m);
      } else {
        assert Addressed(ms, cs) == Addressed(t, cs);
      }
    }
  }

  lemma AgreeDrop(cs: seq<Conn>, s: Sys, i: nat)
    requires Agree(cs, s) && i < |s.wIn| && !Listed(cs, s.wIn[i].socket)
    ensures var t := Next(s, Drop(i));
            && Agree(cs, t) && t.wIn == s.wIn[..i] + s.wIn[i + 1..] && t.rIn == s.rIn && t.mappings == s.mappings
  {
  }

  lemma NoOthers(socket: int)
    ensures Others([], socket) == [] && !Listed([], socket)
  {
  }

  lemma OthersOneMore(done: seq<Conn>, c: Conn, socket: int)
    ensures Others(done + [c], socket) == Others(done, socket) + (if c.socket == socket then [] else [c])
    ensures Listed(done + [c], socket) <==> Listed(done, socket) || c.socket == socket
  {
    var t := done + [c];
    assert t[..|done|] == done && t[|done|] == c;
    if Listed(done, socket) {
      var k :| 0 <= k < |done| && done[k].socket == socket;
      assert t[k].socket == socket;
    }
  }

  /** The mappings of a socket go when the first connection of the socket does. */
  lemma KeepOneMore(ms: seq<Mapping>, done: seq<Conn>, c: Conn, socket: int)
    ensures var k := BySockets({socket});
            var now := if Listed(done, socket) then Keep(ms, k) else ms;
            (if Listed(done + [c], socket) then Keep(ms, k) else ms) == if c.socket == socket then Keep(now, k) else now
  {
    hide Keep, Listed;
    OthersOneMore(done, c, socket);
    KeepTwice(ms, {socket}, {socket});
    assert {socket} + {socket} == {socket};
  }

  lemma FitsAt(cs: seq<Conn>, p: nat, ready: Ready)
    requires AllFit(cs, ready) && p < |cs|
    ensures Fits(cs[p], ready) && |cs[p].link.r| + |Incoming(cs[p].socket, ready)| <= BUFFER_KSIZE
  {
    assert Fits(cs[p], ready);
  }

  lemma Starts(cs: seq<Conn>, s: Sys, ready: Ready)
    requires Agree(cs, s)
    ensures Scanning(cs, 0, ready, cs, ready.readable, ready.broken)
    ensures PassQueued([], ready) == [] && Keep(s.mappings, BySockets(PassClosed([], ready))) == s.mappings
  {
    ScanStart(cs, ready);
    KeepAll(s.mappings);
  }

  /** `Others` and the closing step agree. */
  lemma Removed(cs: seq<Conn>, s: Sys, i: nat)
    requires Agree(cs, s) && i < |cs|
    ensures Listed(cs, cs[i].socket) && Others(cs, cs[i].socket) == cs[..i] + cs[i + 1..]
    ensures var t := Next(s, Close(cs[i].socket));
            && Agree(cs[..i] + cs[i + 1..], t)
            && t.rIn == s.rIn && t.wIn == s.wIn && t.mappings == Keep(s.mappings, BySockets({cs[i].socket}))
  {
    hide Others, Keep, Next;
    OthersWithout(cs, i);
    AgreeClose(cs, s, i);
  }

  lemma SameAgain(now: seq<Conn>, i: nat, r: seq<InMessage>)
    requires i < |now|
    ensures now[i := now[i].(link := now[i].link)] == now && r + Tagged(now[i].socket, []) == r
  {
  }

  /**
   * Where the reading pass stands that began with the connections `cs` in state `s0`: `p` of them were looked
   * at, position `i` of the list as it is `now` is next, and the state `s` was reached by steps.
   */
  ghost predicate Reading(cs: seq<Conn>, ready: Ready, s0: Sys, p: nat, i: nat, now: seq<Conn>,
                          readable: set<int>, broken: set<int>, s: Sys) {
    && p <= |cs| && i <= |now| - (|cs| - p)
    && Agree(now, s) && Reaches(s0, s) && AllFit(cs, ready) && s.wIn == s0.wIn
    && Scanning(cs, p, ready, now, readable, broken)
    && s.rIn == s0.rIn + PassQueued(cs[..p], ready)
    && s.mappings == Keep(s0.mappings, BySockets(PassClosed(cs[..p], ready)))
  }

  lemma ReadingStart(cs: seq<Conn>, ready: Ready, s: Sys)
    requires Agree(cs, s) && AllFit(cs, ready)
    ensures Reading(cs, ready, s, 0, 0, cs, ready.readable, ready.broken, s)
  {
    hide Agree, Scanning, AllFit, Reaches, Keep, PassQueued, PassClosed;
    Starts(cs, s, ready);
    ReachesSelf(s);
    assert cs[..0] == [] && s.rIn + [] == s.rIn;
  }

  lemma ReadingEnd(cs: seq<Conn>, ready: Ready, s0: Sys, p: nat, now: seq<Conn>, readable: set<int>, broken: set<int>,
                   s: Sys)
    requires Reading(cs, ready, s0, p, |now|, now, readable, broken, s)
    ensures Agree(now, s) && Reaches(s0, s) && s.wIn == s0.wIn
    ensures now == PassConns(cs, ready) && s.rIn == s0.rIn + PassQueued(cs, ready)
    ensures s.mappings == Keep(s0.mappings, BySockets(PassClosed(cs, ready)))
  {
    hide Agree, Scanning, AllFit, Reaches, Keep, PassQueued, PassClosed, PassConns;
    ScanEnd(cs, p, ready, now, readable, broken);
    assert cs[..p] == cs;
  }

  /** The connection at hand is one that was looked at before, or the first that was not. */
  lemma ReadingHere(cs: seq<Conn>, ready: Ready, s0: Sys, p: nat, i: nat, now: seq<Conn>,
                    readable: set<int>, broken: set<int>, s: Sys)
    requires Reading(cs, ready, s0, p, i, now, readable, broken, s) && i < |now|
    ensures if i < |now| - (|cs| - p) then now[i].socket !in readable && now[i].socket !in broken
            else p < |cs| && now[i] == cs[p] && Unvisited(now[i].socket, ready, readable, broken)
    ensures if i < |now| - (|cs| - p) then |now[i].link.r| <= BUFFER_KSIZE
            else |now[i].link.r| + |Incoming(now[i].socket, ready)| <= BUFFER_KSIZE
  {
    hide Agree, Scanning, AllFit, Reaches, Keep, PassQueued, PassClosed, PassConns, Unvisited, Incoming;
    if i < |now| - (|cs| - p) {
      ScanAgain(cs, p, ready, now, readable, broken, i);
    } else {
      ScanAhead(cs, p, ready, now, readable, broken);
      FitsAt(cs, p, ready);
    }
  }

  /** A turn that goes on. */
  lemma ReadingOn(cs: seq<Conn>, ready: Ready, s0: Sys, p: nat, i: nat, now: seq<Conn>,
                  readable: set<int>, broken: set<int>, s: Sys, data: seq<byte>) returns (p': nat)
    requires Reading(cs, ready, s0, p, i, now, readable, broken, s) && i < |now|
    requires if i < |now| - (|cs| - p) then data == []
             else Survives(now[i].socket, ready) && data == Incoming(now[i].socket, ready)
    ensures |now[i].link.r| + |data| <= BUFFER_KSIZE
    ensures var c, t := now[i], Next(s, ReceiveClient(now[i].socket, data));
            && Reading(cs, ready, s0, p', i + 1, now[i := c.(link := LinkReceive(c.link, data))],
                       readable - {c.socket}, broken, t)
            && t.rIn == s.rIn + Tagged(c.socket, Parse(c.link.r + data).pdus) && t.mappings == s.mappings
    ensures p <= p' <= |cs|
  {
    hide Agree, Scanning, AllFit, Reaches, Keep, PassQueued, PassClosed, PassConns, Unvisited, Incoming, Survives, Next,
      Parse, Tagged, LinkReceive;
    ReadingHere(cs, ready, s0, p, i, now, readable, broken, s);
    var c := now[i];
    AgreeReceive(now, s, i, data);
    ReachesNext(s0, s, ReceiveClient(c.socket, data));
    if i < |now| - (|cs| - p) {
      p' := p;
      ScanAgain(cs, p, ready, now, readable, broken, i);
      SameAgain(now, i, s.rIn);
      assert readable - {c.socket} == readable;
    } else {
      p' := p + 1;
      ScanAhead(cs, p, ready, now, readable, broken);
      FitsAt(cs, p, ready);
      PassOneMore(cs, p, ready);
      ScanSurvivor(cs, p, ready, now, readable, broken);
      assert PassClosed(cs[..p], ready) + {} == PassClosed(cs[..p], ready);
      AssociateMessages(s0.rIn, PassQueued(cs[..p], ready), Tagged(c.socket, Parse(c.link.r + data).pdus));
    }
  }

  /** A turn that removes the connection and goes back to the head of the list. */
  lemma ReadingRemoved(cs: seq<Conn>, ready: Ready, s0: Sys, p: nat, i: nat, now: seq<Conn>,
                       readable: set<int>, broken: set<int>, s: Sys, readable': set<int>, broken': set<int>)
    requires Reading(cs, ready, s0, p, i, now, readable, broken, s) && |now| - (|cs| - p) <= i < |now|
    requires !Survives(now[i].socket, ready)
    requires readable - {now[i].socket} <= readable' <= readable && broken - {now[i].socket} <= broken' <= broken
    ensures var c, t := now[i], Next(s, Close(now[i].socket));
            && p < |cs| && Reading(cs, ready, s0, p + 1, 0, Others(now, c.socket), readable', broken', t)
            && Listed(now, c.socket) && t.rIn == s.rIn && t.mappings == Keep(s.mappings, BySockets({c.socket}))
  {
    hide Agree, Scanning, AllFit, Reaches, Keep, PassQueued, PassClosed, PassConns, Unvisited, Survives, Next, Others,
      Listed;
    ReadingHere(cs, ready, s0, p, i, now, readable, broken, s);
    var c := now[i];
    Removed(now, s, i);
    ScanRemoved(cs, p, ready, now, readable, broken, readable', broken');
    PassOneMore(cs, p, ready);
    KeepTwice(s0.mappings, PassClosed(cs[..p], ready), {c.socket});
    ReachesNext(s0, s, Close(c.socket));
    assert PassQueued(cs[..p], ready) + [] == PassQueued(cs[..p], ready);
  }

  lemma AssociateMessages(a: seq<InMessage>, b: seq<InMessage>, c: seq<InMessage>)
    ensures a + b + c == a + (b + c)
  {
  }

  // ---------------------------------------------------------------- refilling the write buffers

  /** A connection gets the oldest of the messages for its socket if its buffer is empty. */
  function Refill(c: Conn, waiting: seq<Pdu>): Conn {
    if c.link.w == [] && waiting != [] then c.(link := LinkLoad(c.link, waiting[0])) else c
  }

  function Refills(cs: seq<Conn>, w: seq<InMessage>): (r: seq<Conn>)
    ensures |r| == |cs|
  {
    if cs == [] then []
    else Refills(cs[..|cs| - 1], w) + [Refill(cs[|cs| - 1], For(cs[|cs| - 1].socket, w))]
  }

  predicate Asks(cs: seq<Conn>, socket: int) {
    exists i :: 0 <= i < |cs| && cs[i].socket == socket && cs[i].link.w == []
  }

  /** What still waits for a socket after the connections `cs` had their turn. */
  function AfterRefill(socket: int, cs: seq<Conn>, w: seq<InMessage>): seq<Pdu> {
    var waiting := For(socket, w);
    if Asks(cs, socket) && waiting != [] then waiting[1..] else waiting
  }

  lemma FirstForIs(socket: int, ms: seq<InMessage>, j: nat)
    requires j <= |ms| && (j < |ms| ==> ms[j].socket == socket)
    requires forall k :: 0 <= k < j ==> ms[k].socket != socket
    ensures j == FirstFor(socket, ms)
  {
    hide FirstFor;
    var i := FirstFor(socket, ms);
    assert i < |ms| ==> ms[i].socket == socket;
  }

  /** The sockets of the connections with an empty buffer. */
  function Asking(cs: seq<Conn>): set<int> {
    set i | 0 <= i < |cs| && cs[i].link.w == [] :: cs[i].socket
  }

  /** The messages that are left when the oldest one of each asking socket is taken. */
  function LeftBehind(w: seq<InMessage>, asking: set<int>): seq<InMessage> {
    if w == [] then []
    else if w[0].socket in asking then LeftBehind(w[1..], asking - {w[0].socket})
    else [w[0]] + LeftBehind(w[1..], asking)
  }

  /** One more socket asks: its oldest message goes, wherever it stands. */
  lemma {:induction false} LeftBehindMore(w: seq<InMessage>, asking: set<int>, x: int)
    requires x !in asking
    ensures var l := LeftBehind(w, asking);
            var j := FirstFor(x, l);
            LeftBehind(w, asking + {x}) == if j < |l| then l[..j] + l[j + 1..] else l
    decreases |w|
  {
    hide FirstFor;
    if w != [] {
      var y := w[0].socket;
      if y in asking {
        LeftBehindMore(w[1..], asking - {y}, x);
        assert asking + {x} - {y} == asking - {y} + {x};
      } else if y == x {
        assert asking + {x} - {x} == asking;
        var l := LeftBehind(w, asking);
        FirstForIs(x, l, 0);
        assert l[..0] + l[1..] == l[1..];
      } else {
        LeftBehindMore(w[1..], asking, x);
        var r := LeftBehind(w[1..], asking);
        OneBefore(w[0], r, x);
      }
    }
  }

  lemma OneBefore(m: InMessage, r: seq<InMessage>, x: int)
    requires m.socket != x
    ensures var l, j := [m] + r, FirstFor(x, r);
            && FirstFor(x, l) == j + 1 <= |l|
            && (j < |r| ==> l[..j + 1] + l[j + 2..] == [m] + (r[..j] + r[j + 1..]))
  {
    assert ([m] + r)[1..] == r;
  }

  lemma {:induction false} NobodyAsks(w: seq<InMessage>)
    ensures LeftBehind(w, {}) == w
  {
    if w != [] { NobodyAsks(w[1..]); }
  }

  /** A socket asks, and this is the oldest message for it. */
  ghost predicate Oldest(w: seq<InMessage>, asking: set<int>, i: nat)
    requires i < |w|
  {
    w[i].socket in asking && forall k :: 0 <= k < i ==> w[k].socket != w[i].socket
  }

  ghost predicate Left(w: seq<InMessage>, asking: set<int>, at: seq<nat>) {
    Picks(at, w, LeftBehind(w, asking)) && forall i: nat :: i < |w| ==> (i in at <==> !Oldest(w, asking, i))
  }

  lemma {:induction false} LeftAt(w: seq<InMessage>, asking: set<int>) returns (at: seq<nat>)
    ensures Left(w, asking, at)
    decreases |w|
  {
    hide Left;
    if w == [] {
      at := [];
      NothingLeft(asking);
    } else {
      var y := w[0].socket;
      var later := if y in asking then asking - {y} else asking;
      var first := y !in asking;
      at := LeftAt(w[1..], later);
      LeftMore(w, asking, later, first, at);
      at := Shifted(first, at);
    }
  }

  lemma NothingLeft(asking: set<int>)
    ensures Left([], asking, [])
  {
  }

  lemma LeftMore(w: seq<InMessage>, asking: set<int>, later: set<int>, first: bool, at: seq<nat>)
    requires w != [] && later == (if w[0].socket in asking then asking - {w[0].socket} else asking)
    requires Left(w[1..], later, at) && first == (w[0].socket !in asking)
    ensures Left(w, asking, Shifted(first, at))
  {
    hide Picks, Shifted, Oldest;
    PicksShifted(first, at, w, LeftBehind(w[1..], later));
    assert [] + LeftBehind(w[1..], later) == LeftBehind(w[1..], later);
    forall i: nat | i < |w| ensures i in Shifted(first, at) <==> !Oldest(w, asking, i) {
      InShifted(first, at, i);
      if i == 0 { OldestFirst(w, asking); } else { OldestLater(w, asking, later, i); }
    }
  }

  lemma OldestFirst(w: seq<InMessage>, asking: set<int>)
    requires w != []
    ensures Oldest(w, asking, 0) <==> w[0].socket in asking
  {
  }

  lemma OldestLater(w: seq<InMessage>, asking: set<int>, later: set<int>, i: nat)
    requires 0 < i < |w| && later == (if w[0].socket in asking then asking - {w[0].socket} else asking)
    ensures Oldest(w, asking, i) <==> Oldest(w[1..], later, i - 1)
  {
    var v := w[1..];
    assert forall k :: 0 <= k < |v| ==> v[k] == w[k + 1];
    assert forall k :: 0 < k < i ==> w[k] == v[k - 1];
  }

  /**
   * What a pass takes from the queue: exactly the oldest message for each socket of a connection with an empty buffer.
   * The others, at the positions `at`, keep their order.
   */
  lemma LeftBehindExactly(w: seq<InMessage>, cs: seq<Conn>) returns (at: seq<nat>)
    ensures var l := LeftBehind(w, Asking(cs));
            && |at| == |l| && (forall i, j :: 0 <= i < j < |at| ==> at[i] < at[j])
            && (forall n :: 0 <= n < |at| ==> at[n] < |w| && l[n] == w[at[n]])
    ensures forall i: nat :: i < |w| ==>
              (i in at <==> !((exists c :: 0 <= c < |cs| && cs[c].link.w == [] && cs[c].socket == w[i].socket)
                              && forall k :: 0 <= k < i ==> w[k].socket != w[i].socket))
  {
    hide LeftBehind;
    var asking := Asking(cs);
    at := LeftAt(w, asking);
    forall i: nat | i < |w|
      ensures w[i].socket in asking <==> exists c :: 0 <= c < |cs| && cs[c].link.w == [] && cs[c].socket == w[i].socket
    {
    }
    hide Asking;
    assert forall i: nat :: i < |w| ==> (i in at <==> !Oldest(w, asking, i));
  }

  /** What is left behind after the turn of one more connection. */
  lemma AskingTurn(cs: seq<Conn>, w: seq<InMessage>, i: nat)
    requires DistinctSockets(cs) && i < |cs|
    ensures var l, x := LeftBehind(w, Asking(cs[..i])), cs[i].socket;
            var j := FirstFor(x, l);
            LeftBehind(w, Asking(cs[..i + 1])) ==
              if cs[i].link.w == [] && j < |l| then l[..j] + l[j + 1..] else l
  {
    hide LeftBehind, Asking, FirstFor, DistinctSockets;
    AskingOneMore(cs, i);
    var asking := Asking(cs[..i]);
    assert asking + {} == asking;
    LeftBehindMore(w, asking, cs[i].socket);
  }

  /**
   * What a pass does to each connection: if its buffer is empty it takes the frame of the first message for its socket
   * that waits, and otherwise it stays as it is.
   */
  lemma RefillsExactly(cs: seq<Conn>, w: seq<InMessage>, i: nat)
    requires i < |cs|
    ensures cs[i].link.w != [] || (forall k :: 0 <= k < |w| ==> w[k].socket != cs[i].socket) ==>
              Refills(cs, w)[i] == cs[i]
    ensures forall j: nat ::
              && cs[i].link.w == [] && j < |w| && w[j].socket == cs[i].socket && |w[j].pdu| < 0x1_0000
              && (forall k :: 0 <= k < j ==> w[k].socket != cs[i].socket) ==>
                var d, p := Refills(cs, w)[i], w[j].pdu;
                && |d.link.w| == |p| + 2 && d.link.w[2..] == p
                && d.link.w[0] as int == |p| / 256 && d.link.w[1] as int == |p| % 256
                && d == cs[i].(link := cs[i].link.(w := d.link.w, loaded := cs[i].link.loaded + [p]))
  {
    hide Refill, For, Frame, Refills;
    RefillsAt(cs, w, i);
    var c := cs[i];
    if forall k :: 0 <= k < |w| ==> w[k].socket != c.socket {
      ForNone(c.socket, w);
    }
    RefillIs(c, For(c.socket, w));
    forall j: nat | j < |w| && w[j].socket == c.socket && forall k :: 0 <= k < j ==> w[k].socket != c.socket
      ensures For(c.socket, w) != [] && For(c.socket, w)[0] == w[j].pdu
    {
      FirstForIs(c.socket, w, j);
      ForWithout(c.socket, w, j);
    }
  }

  lemma RefillIs(c: Conn, waiting: seq<Pdu>)
    ensures c.link.w != [] || waiting == [] ==> Refill(c, waiting) == c
    ensures c.link.w == [] && waiting != [] && |waiting[0]| < 0x1_0000 ==>
              var d, p := Refill(c, waiting), waiting[0];
              && |d.link.w| == |p| + 2 && d.link.w[2..] == p
              && d.link.w[0] as int == |p| / 256 && d.link.w[1] as int == |p| % 256
              && d == c.(link := c.link.(w := d.link.w, loaded := c.link.loaded + [p]))
  {
    hide Frame;
    if waiting != [] && |waiting[0]| < 0x1_0000 { FrameOctets(waiting[0]); }
  }

  lemma {:induction false} RefillsAt(cs: seq<Conn>, w: seq<InMessage>, i: nat)
    requires i < |cs|
    ensures Refills(cs, w)[i] == Refill(cs[i], For(cs[i].socket, w))
  {
    hide Refill, For;
    if i < |cs| - 1 { RefillsAt(cs[..|cs| - 1], w, i); }
  }

  lemma AskingOneMore(cs: seq<Conn>, i: nat)
    requires i < |cs|
    ensures Asking(cs[..i + 1]) == Asking(cs[..i]) + (if cs[i].link.w == [] then {cs[i].socket} else {})
    ensures DistinctSockets(cs) ==> cs[i].socket !in Asking(cs[..i])
  {
    var t, u := cs[..i + 1], cs[..i];
    assert forall k :: 0 <= k < i ==> t[k] == u[k];
    assert t[i] == cs[i];
    forall x | x in Asking(u) ensures x in Asking(t) {
      var k :| 0 <= k < |u| && u[k].link.w == [] && u[k].socket == x;
      assert t[k].socket == x;
    }
    if cs[i].link.w == [] { assert t[i].socket in Asking(t); }
  }

  /** Where the refilling pass stands: the first `i` of the connections `cs` had their turn. */
  ghost predicate Refilling(cs: seq<Conn>, s0: Sys, i: nat, now: seq<Conn>, s: Sys) {
    && i <= |cs| && DistinctSockets(cs) && Agree(now, s) && Reaches(s0, s) && s.rIn == s0.rIn
       && s.mappings == s0.mappings
    && now == Refills(cs[..i], s0.wIn) + cs[i..]
    && s.wIn == LeftBehind(s0.wIn, Asking(cs[..i]))
    && forall socket :: For(socket, s.wIn) == AfterRefill(socket, cs[..i], s0.wIn)
  }

  lemma RefillStart(cs: seq<Conn>, s: Sys)
    requires Agree(cs, s)
    ensures Refilling(cs, s, 0, cs, s)
  {
    ReachesSelf(s);
    NobodyAsks(s.wIn);
    assert Asking(cs[..0]) == {};
  }

  lemma RefillEnd(cs: seq<Conn>, s0: Sys, i: nat, now: seq<Conn>, s: Sys)
    requires Refilling(cs, s0, i, now, s) && |now| <= i
    ensures Agree(now, s) && Reaches(s0, s) && s.rIn == s0.rIn && s.mappings == s0.mappings
    ensures now == Refills(cs, s0.wIn) && s.wIn == LeftBehind(s0.wIn, Asking(cs))
    ensures forall socket :: For(socket, s.wIn) == AfterRefill(socket, cs, s0.wIn)
  {
    hide Agree, Reaches, Refills, For, AfterRefill, LeftBehind, Asking;
    assert cs[..i] == cs && cs[i..] == [];
  }

  lemma RefillsOneMore(cs: seq<Conn>, w: seq<InMessage>, i: nat)
    requires i < |cs|
    ensures Refills(cs[..i + 1], w) == Refills(cs[..i], w) + [Refill(cs[i], For(cs[i].socket, w))]
  {
    hide Refill, For;
    var t := cs[..i + 1];
    assert t[..i] == cs[..i] && t[i] == cs[i];
  }

  lemma RefillPlace(cs: seq<Conn>, w: seq<InMessage>, now: seq<Conn>, i: nat)
    requires i < |cs| && now == Refills(cs[..i], w) + cs[i..]
    ensures |now| == |cs| && now[i := Refill(cs[i], For(cs[i].socket, w))] == Refills(cs[..i + 1], w) + cs[i + 1..]
  {
    hide Refills, Refill, For;
    RefillsOneMore(cs, w, i);
  }

  lemma AsksOneMore(cs: seq<Conn>, i: nat, socket: int)
    requires i < |cs|
    ensures Asks(cs[..i + 1], socket) <==> Asks(cs[..i], socket) || (cs[i].socket == socket && cs[i].link.w == [])
  {
    var t, u := cs[..i + 1], cs[..i];
    assert forall k :: 0 <= k < i ==> t[k] == u[k];
    assert t[i] == cs[i];
    if Asks(u, socket) {
      var k :| 0 <= k < |u| && u[k].socket == socket && u[k].link.w == [];
      assert t[k].socket == socket;
    }
  }

  /** The turn of one connection: it finds all the messages of its socket, and takes the first if it asks. */
  lemma WaitingInTurn(cs: seq<Conn>, w0: seq<InMessage>, w: seq<InMessage>, i: nat)
    requires i < |cs| && DistinctSockets(cs)
    requires forall socket :: For(socket, w) == AfterRefill(socket, cs[..i], w0)
    ensures For(cs[i].socket, w) == For(cs[i].socket, w0)
    ensures forall socket :: AfterRefill(socket, cs[..i + 1], w0) ==
              if socket == cs[i].socket && cs[i].link.w == [] && For(socket, w) != [] then For(socket, w)[1..]
                else For(socket, w)
  {
    hide For;
    forall socket
      ensures Asks(cs[..i + 1], socket) <==> Asks(cs[..i], socket) || (cs[i].socket == socket && cs[i].link.w == []) {
      AsksOneMore(cs, i, socket);
    }
    assert !Asks(cs[..i], cs[i].socket);
  }

  /** Taking the first message of a socket. */
  lemma LoadTakes(socket: int, w: seq<InMessage>)
    ensures var j := FirstFor(socket, w);
            if j == |w| then For(socket, w) == []
            else
              && For(socket, w) != [] && For(socket, w)[0] == w[j].pdu
              && forall other :: For(other, w[..j] + w[j + 1..]) == if other == socket then For(socket, w)[1..]
                 else For(other, w)
  {
    hide For, FirstFor;
    var j := FirstFor(socket, w);
    if j == |w| {
      ForNone(socket, w);
    } else {
      var v := w[..j] + w[j + 1..];
      ForWithout(socket, w, j);
      forall other ensures For(other, v) == if other == socket then For(socket, w)[1..] else For(other, w) {
        ForWithout(other, w, j);
      }
    }
  }

  lemma AgreeLoad(cs: seq<Conn>, s: Sys, i: nat)
    requires Agree(cs, s) && i < |cs| && cs[i].link.w == [] && FirstFor(cs[i].socket, s.wIn) < |s.wIn|
    ensures var c, j := cs[i], FirstFor(cs[i].socket, s.wIn);
            var t := Next(s, LoadClient(c.socket));
            && Agree(cs[i := c.(link := LinkLoad(c.link, s.wIn[j].pdu))], t)
            && t.wIn == s.wIn[..j] + s.wIn[j + 1..] && t.rIn == s.rIn && t.mappings == s.mappings
  {
    hide FirstFor, LinkLoad, Agree;
    var c, j := cs[i], FirstFor(cs[i].socket, s.wIn);
    AgreeAt(cs, s, i);
    AgreeUpdate(cs, s, DoLoadClient(s, c.socket), i, LinkLoad(c.link, s.wIn[j].pdu));
  }

  /** The turn of one connection as a step of the state machine, or none. */
  lemma RefillTurn(cs: seq<Conn>, s0: Sys, i: nat, now: seq<Conn>, s: Sys) returns (t: Sys)
    requires Refilling(cs, s0, i, now, s) && i < |now|
    ensures var c, j := now[i], FirstFor(now[i].socket, s.wIn);
            if c.link.w != [] || j == |s.wIn| then t == s && Refilling(cs, s0, i + 1, now, t)
            else
              && t.wIn == s.wIn[..j] + s.wIn[j + 1..]
              && Refilling(cs, s0, i + 1, now[i := c.(link := LinkLoad(c.link, s.wIn[j].pdu))], t)
  {
    hide Agree, Reaches, Refills, AfterRefill, For, FirstFor, Next, LinkLoad, DistinctSockets, LeftBehind, Asking;
    var c, j := now[i], FirstFor(now[i].socket, s.wIn);
    assert c == cs[i];
    RefillPlace(cs, s0.wIn, now, i);
    WaitingInTurn(cs, s0.wIn, s.wIn, i);
    LoadTakes(c.socket, s.wIn);
    AskingTurn(cs, s0.wIn, i);
    t := s;
    if c.link.w == [] && j < |s.wIn| {
      AgreeLoad(now, s, i);
      ReachesNext(s0, s, LoadClient(c.socket));
      t := Next(s, LoadClient(c.socket));
    } else {
      assert now[i := c] == now;
    }
    forall socket ensures For(socket, t.wIn) == AfterRefill(socket, cs[..i + 1], s0.wIn) {
      assert For(socket, s.wIn) == AfterRefill(socket, cs[..i], s0.wIn);
    }
  }
}

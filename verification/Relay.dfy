/**
 * The relay as a state machine (`muxer/protocol.c`, `muxer/mapping.c`, `muxer/connection.c` and the
 * buffer functions of `muxer/dispatcher.c`). Every critical section is one step; the steps of the
 * reading, writing, processing and cleanup threads interleave in any order.
 */
module Relay {
  import opened Bytes
  import opened Per
  import opened Messages
  import opened Pdus
  import opened Framing

  const MAX_INVOKEID: nat := 32767

  datatype InMessage = InMessage(socket: int, pdu: Pdu)

  datatype Mapping = Mapping(socket: int, original: uint64, generated: uint64)

  /** `generate_invokeid` */
  function NextId(counter: uint64): (id: uint64)
    ensures 1 <= id <= MAX_INVOKEID
  {
    counter % MAX_INVOKEID + 1
  }

  /** The id of the request that is issued after `k` others. */
  function IdOf(k: nat): (id: uint64)
    ensures 1 <= id <= MAX_INVOKEID
  {
    k % MAX_INVOKEID + 1
  }

  // ---------------------------------------------------------------- mappings

  /** What a removing loop looks for: a reply's generated id, or the sockets of closed connections. */
  datatype Key = ById(id: uint64) | BySockets(sockets: set<int>)

  predicate Hits(m: Mapping, k: Key) {
    match k
    case ById(id) => m.generated == id
    case BySockets(sockets) => m.socket in sockets
  }

  /** The mappings that stay, in order. */
  function Keep(ms: seq<Mapping>, k: Key): (r: seq<Mapping>)
    ensures |r| <= |ms|
  {
    if ms == [] then []
    else
      var m := ms[|ms| - 1];
      Keep(ms[..|ms| - 1], k) + (if Hits(m, k) then [] else [m])
  }

  /** The mappings that are removed, in order. */
  function Hit(ms: seq<Mapping>, k: Key): (r: seq<Mapping>)
    ensures |r| <= |ms|
  {
    if ms == [] then []
    else
      var m := ms[|ms| - 1];
      Hit(ms[..|ms| - 1], k) + (if Hits(m, k) then [m] else [])
  }

  /** The last mapping either stays or goes. */
  lemma LastKeptOrHit(ms: seq<Mapping>, k: Key)
    requires ms != []
    ensures var n := |ms| - 1;
            var a, b := Keep(ms[..n], k), Hit(ms[..n], k);
            && Keep(ms, k) == (if Hits(ms[n], k) then a else a + [ms[n]])
            && Hit(ms, k) == (if Hits(ms[n], k) then b + [ms[n]] else b)
  {
    hide Hits;
    var n := |ms| - 1;
    var a, b := Keep(ms[..n], k), Hit(ms[..n], k);
    assert a + [] == a && b + [] == b;
  }

  /** Removing the mappings of several sockets one after the other is removing them all. */
  lemma {:induction false} KeepTwice(ms: seq<Mapping>, a: set<int>, b: set<int>)
    ensures Keep(Keep(ms, BySockets(a)), BySockets(b)) == Keep(ms, BySockets(a + b))
  {
    if ms != [] {
      var m, t := ms[|ms| - 1], ms[..|ms| - 1];
      var r := Keep(t, BySockets(a));
      KeepTwice(t, a, b);
      assert Hits(m, BySockets(a + b)) == (m.socket in a || m.socket in b);
      if m.socket !in a {
        var u := r + [m];
        assert u[..|u| - 1] == r;
        assert Keep(ms, BySockets(a)) == u;
        assert Keep(u, BySockets(b)) == Keep(r, BySockets(b)) + (if m.socket in b then [] else [m]);
      } else {
        assert Keep(ms, BySockets(a)) == r + [] == r;
      }
    }
  }

  lemma {:induction false} KeepAll(ms: seq<Mapping>)
    ensures Keep(ms, BySockets({})) == ms
  {
    if ms != [] { KeepAll(ms[..|ms| - 1]); }
  }

  /** The reply as it goes back to the client of a mapping. */
  function Answered(m: Mapping, reply: Output): (r: InMessage)
    requires OutputValid(reply)
  {
    InMessage(m.socket, OutputPdu(reply.(invokeid := Wrap64(m.original))))
  }

  function AnsweredAll(ms: seq<Mapping>, reply: Output): (r: seq<InMessage>)
    requires OutputValid(reply)
    ensures |r| == |ms|
    ensures forall i :: 0 <= i < |ms| ==> r[i] == Answered(ms[i], reply)
  {
    seq(|ms|, i requires 0 <= i < |ms| => Answered(ms[i], reply))
  }

  /** The request as it goes on to the server. */
  function Forwarded(request: Pdu, id: uint64): (p: Pdu)
    ensures 4 <= |p| <= 266
  {
    InputPdu(DecodedInput(request).(invokeid := Wrap64(id)))
  }

  // ---------------------------------------------------------------- connections

  /** The buffers of a connection, with everything that ever went through them. */
  datatype Link = Link(r: seq<byte>, w: seq<byte>,
                       received: seq<byte>, queued: seq<Pdu>, sent: seq<byte>, loaded: seq<Pdu>)

  const FRESH_LINK := Link([], [], [], [], [], [])

  /** `read_data` and `read_pdus_from_recv_buffer`; the parsed PDUs are what `queued` grows by. */
  function LinkReceive(l: Link, data: seq<byte>): Link {
    var p := Parse(l.r + data);
    l.(r := p.rest, received := l.received + data, queued := l.queued + p.pdus)
  }

  /** `write_pdu_to_send_buffer` */
  function LinkLoad(l: Link, pdu: Pdu): Link {
    l.(w := Frame(pdu), loaded := l.loaded + [pdu])
  }

  /** `write_data`, when the network takes `n` octets */
  function LinkSend(l: Link, n: nat): Link
    requires n <= |l.w|
  {
    l.(w := l.w[n..], sent := l.sent + l.w[..n])
  }

  predicate LinkOk(l: Link) {
    && Parse(l.received) == Parsed(l.queued, l.r)
    && l.sent + l.w == Frames(l.loaded)
    && |l.r| <= BUFFER_KSIZE && |l.w| <= BUFFER_KSIZE
    && AllFramable(l.loaded)
    && !HasFrame(l.r)
  }

  lemma LinkReceiveOk(l: Link, data: seq<byte>)
    requires LinkOk(l) && |l.r| + |data| <= BUFFER_KSIZE
    ensures LinkOk(LinkReceive(l, data)) && AllFramable(Parse(l.r + data).pdus)
  {
    hide Header, HasFrame, Frames;
    ParseInPieces(l.received, data);
    NoFrame(l.r + data);
    ParseSmall(l.r + data);
  }

  lemma {:induction false} ParseSmall(s: seq<byte>)
    requires |s| <= BUFFER_KSIZE
    ensures AllFramable(Parse(s).pdus) && |Parse(s).rest| <= |s|
    decreases |s|
  {
    if HasFrame(s) {
      ParseSmall(s[PDU_HEADER_LENGTH + Header(s)..]);
    }
  }

  lemma LinkLoadOk(l: Link, pdu: Pdu)
    requires LinkOk(l) && l.w == [] && Framable(pdu)
    ensures LinkOk(LinkLoad(l, pdu))
  {
    hide Parse, Frame, HasFrame;
    FramesConcat(l.loaded, [pdu]);
    OneFrame(pdu);
    assert l.sent + [] == l.sent;
  }

  lemma OneFrame(pdu: Pdu)
    ensures Frames([pdu]) == Frame(pdu)
  {
    assert Frame(pdu) + [] == Frame(pdu);
  }

  lemma LinkSendOk(l: Link, n: nat)
    requires LinkOk(l) && n <= |l.w|
    ensures LinkOk(LinkSend(l, n))
  {
    hide Parse, Frames, HasFrame;
    assert l.sent + l.w[..n] + l.w[n..] == l.sent + l.w;
  }

  /** What the other side reads from the octets sent so far is an initial part of what was loaded. */
  lemma SentIsPrefix(l: Link)
    requires LinkOk(l)
    ensures Parse(l.sent).pdus <= l.loaded
  {
    hide Parse, Frames;
    assert l.sent <= Frames(l.loaded);
    ParsePrefix(l.sent, l.loaded);
  }
}

/**
 * Length-prefixed framing (`common/pdu.c`): what a stream of octets means as a list of PDUs, why
 * that does not depend on how the stream is cut into pieces, and the in-place code that does it.
 */
module Framing {
  import opened Bytes
  import opened Pdus

  datatype Parsed = Parsed(pdus: seq<Pdu>, rest: seq<byte>)

  /** The payload length in network byte order. */
  function Header(s: seq<byte>): (n: nat)
    requires |s| >= PDU_HEADER_LENGTH
    ensures n < 0x1_0000
  {
    ByteVal(s[0]) * 0x100 + ByteVal(s[1])
  }

  /** A payload that a frame can carry through a 1024-octet buffer. */
  predicate Framable(p: Pdu) {
    1 <= |p| <= BUFFER_KSIZE - PDU_HEADER_LENGTH
  }

  function Frame(p: Pdu): (f: seq<byte>)
    ensures |f| == PDU_HEADER_LENGTH + |p|
  {
    [ByteOf(|p| / 0x100), ByteOf(|p| % 0x100)] + p
  }

  function Frames(ps: seq<Pdu>): seq<byte> {
    if ps == [] then [] else Frame(ps[0]) + Frames(ps[1..])
  }

  /** A complete frame stands at the front of `s`. */
  predicate HasFrame(s: seq<byte>) {
    |s| >= PDU_HEADER_LENGTH && 0 < Header(s) <= |s| - PDU_HEADER_LENGTH
  }

  /** The greedy reading of a stream: complete frames from the front, and what is left over. */
  function Parse(s: seq<byte>): (p: Parsed)
    ensures !HasFrame(p.rest)
  {
    if HasFrame(s) then
      var n := PDU_HEADER_LENGTH + Header(s);
      var later := Parse(s[n..]);
      Parsed([s[PDU_HEADER_LENGTH..n]] + later.pdus, later.rest)
    else Parsed([], s)
  }

  lemma HasFrameExtends(a: seq<byte>, b: seq<byte>)
    requires HasFrame(a)
    ensures var n := PDU_HEADER_LENGTH + Header(a);
            && HasFrame(a + b) && Header(a + b) == Header(a)
            && (a + b)[n..] == a[n..] + b
            && (a + b)[PDU_HEADER_LENGTH..n] == a[PDU_HEADER_LENGTH..n]
  {
    assert (a + b)[0] == a[0] && (a + b)[1] == a[1];
  }

  /** Reading a piece, keeping the leftover, and reading on is reading the whole. */
  lemma {:induction false} ParseInPieces(a: seq<byte>, b: seq<byte>)
    ensures var p := Parse(a);
            var q := Parse(p.rest + b);
            Parse(a + b) == Parsed(p.pdus + q.pdus, q.rest)
    decreases |a|
  {
    hide Header;
    if HasFrame(a) {
      var n := PDU_HEADER_LENGTH + Header(a);
      HasFrameExtends(a, b);
      ParseInPieces(a[n..], b);
      var p, q := Parse(a[n..]), Parse(Parse(a[n..]).rest + b);
      assert [a[PDU_HEADER_LENGTH..n]] + (p.pdus + q.pdus) == [a[PDU_HEADER_LENGTH..n]] + p.pdus + q.pdus;
    }
  }

  /** The buffer and the queue after receiving `chunks` one by one, parsing after each. */
  function Receive(buffered: seq<byte>, chunks: seq<seq<byte>>): Parsed
    decreases |chunks|
  {
    if chunks == [] then Parsed([], buffered)
    else
      var p := Parse(buffered + chunks[0]);
      var later := Receive(p.rest, chunks[1..]);
      Parsed(p.pdus + later.pdus, later.rest)
  }

  function Join(chunks: seq<seq<byte>>): seq<byte> {
    if chunks == [] then [] else chunks[0] + Join(chunks[1..])
  }

  /** However a stream is cut into received pieces, the same PDUs are queued and the same octets left over. */
  lemma {:induction false} ChunkIndependence(buffered: seq<byte>, chunks: seq<seq<byte>>)
    requires !HasFrame(buffered)
    ensures Receive(buffered, chunks) == Parse(buffered + Join(chunks))
    decreases |chunks|
  {
    hide HasFrame, Header, Parse;
    if chunks == [] {
      assert buffered + [] == buffered;
      NoFrame(buffered);
    } else {
      var first := buffered + chunks[0];
      var later := Join(chunks[1..]);
      NoFrame(first);
      ChunkIndependence(Parse(first).rest, chunks[1..]);
      ParseInPieces(first, later);
      assert first + later == buffered + (chunks[0] + later);
    }
  }

  lemma NoFrame(s: seq<byte>)
    ensures !HasFrame(s) ==> Parse(s) == Parsed([], s)
    ensures !HasFrame(Parse(s).rest)
  {
  }

  lemma HeaderOfFrame(p: Pdu, tail: seq<byte>)
    requires |p| < 0x1_0000
    ensures Header(Frame(p) + tail) == |p|
    ensures (Frame(p) + tail)[PDU_HEADER_LENGTH..PDU_HEADER_LENGTH + |p|] == p
    ensures (Frame(p) + tail)[PDU_HEADER_LENGTH + |p|..] == tail
  {
    ByteValOf(|p| / 0x100);
    ByteValOf(|p| % 0x100);
  }

  // ---------------------------------------------------------------- the octets on the wire

  /** A frame is the length of the payload, high octet first, and the payload. */
  lemma FrameOctets(p: Pdu)
    requires |p| < 0x1_0000
    ensures var f := Frame(p);
            && |f| == |p| + 2
            && f[0] as int == |p| / 256 && f[1] as int == |p| % 256 && f[2..] == p
  {
    hide ByteOf;
    TwoOctetsOf(|p|);
    var high, low := ByteOf(|p| / 0x100), ByteOf(|p| % 0x100);
    var f := [high, low] + p;
    assert f[0] == high && f[1] == low && f[2..] == p;
  }

  lemma HeaderOctets(s: seq<byte>)
    requires |s| >= 2
    ensures Header(s) == s[0] as int * 256 + s[1] as int
  {
    ByteValIs(s[0]);
    ByteValIs(s[1]);
  }

  /** What is left over after reading does not begin with a complete frame. */
  lemma NoFrameOctets(s: seq<byte>)
    ensures HasFrame(s) <==> |s| >= 2 && 0 < s[0] as int * 256 + s[1] as int <= |s| - 2
  {
    hide Header;
    if |s| >= 2 { HeaderOctets(s); }
  }

  /**
   * Reading: if the first two octets say `n`, and `n` is not zero and that many octets follow, they are the first
   * PDU and reading goes on behind them; otherwise nothing is read.
   */
  lemma FirstPdu(r: seq<byte>, n: nat)
    requires |r| >= 2 ==> n == r[0] as int * 256 + r[1] as int
    ensures |r| >= 2 && 0 < n <= |r| - 2 ==>
              Parse(r) == Parsed([r[2..n + 2]] + Parse(r[n + 2..]).pdus, Parse(r[n + 2..]).rest)
    ensures !(|r| >= 2 && 0 < n <= |r| - 2) ==> Parse(r) == Parsed([], r)
  {
    hide Header;
    if |r| >= 2 {
      HeaderOctets(r);
    }
  }

  /** Several PDUs are the one frame after the other. */
  lemma FramesOctets(ps: seq<Pdu>, p: Pdu)
    requires |p| < 0x1_0000
    ensures Frames([]) == []
    ensures var f, n := Frames(ps + [p]), |Frames(ps)|;
            && |f| == n + 2 + |p| && f[..n] == Frames(ps)
            && f[n] as int == |p| / 256 && f[n + 1] as int == |p| % 256 && f[n + 2..] == p
  {
    hide Frame;
    FramesConcat(ps, [p]);
    FrameOctets(p);
    assert Frames([p]) == Frame(p) by {
      assert Frame(p) + [] == Frame(p) && [p][1..] == [];
    }
    var f, n := Frames(ps + [p]), |Frames(ps)|;
    assert f[n + 2..] == Frame(p)[2..];
  }

  predicate AllFramable(ps: seq<Pdu>) {
    forall i :: 0 <= i < |ps| ==> Framable(ps[i])
  }

  /** The payloads whose length a header can say. */
  predicate AllSized(ps: seq<Pdu>) {
    forall i :: 0 <= i < |ps| ==> 1 <= |ps[i]| < 0x1_0000
  }

  lemma ParseFrame(p: Pdu, tail: seq<byte>)
    requires 1 <= |p| < 0x1_0000
    ensures Parse(Frame(p) + tail) == Parsed([p] + Parse(tail).pdus, Parse(tail).rest)
  {
    hide Header, Frame;
    HeaderOfFrame(p, tail);
    assert HasFrame(Frame(p) + tail);
  }

  /** Framing is inverted by parsing, whatever follows. */
  lemma {:induction false} ParseFrames(ps: seq<Pdu>, tail: seq<byte>)
    requires AllSized(ps)
    ensures Parse(Frames(ps) + tail) == Parsed(ps + Parse(tail).pdus, Parse(tail).rest)
  {
    hide Parse, Frame;
    if ps == [] {
      assert Frames(ps) + tail == tail;
    } else {
      var later := Frames(ps[1..]) + tail;
      ParseFrame(ps[0], later);
      ParseFrames(ps[1..], tail);
      assert Frames(ps) + tail == Frame(ps[0]) + later;
      assert ps + Parse(tail).pdus == [ps[0]] + (ps[1..] + Parse(tail).pdus);
    }
  }

  /**
   * Reading is determined by the framing alone: a stream reads as `ps` with `rest` left over exactly when it is
   * the frames of `ps`, each with a payload of 1 to 65535 octets, and then `rest`, which begins no complete frame.
   */
  lemma ParseExactly(s: seq<byte>, ps: seq<Pdu>, rest: seq<byte>)
    ensures Parse(s) == Parsed(ps, rest) <==> s == Frames(ps) + rest && AllSized(ps) && !HasFrame(rest)
  {
    hide Parse, Frames, HasFrame, AllSized;
    Unframed(s);
    if s == Frames(ps) + rest && AllSized(ps) && !HasFrame(rest) {
      ParseFrames(ps, rest);
      NoFrame(rest);
      assert ps + [] == ps;
    }
  }

  lemma {:induction false} Unframed(s: seq<byte>)
    ensures var p := Parse(s);
            s == Frames(p.pdus) + p.rest && AllSized(p.pdus) && !HasFrame(p.rest)
    decreases |s|
  {
    hide Header, Frame, Frames, AllSized;
    if HasFrame(s) {
      var n := PDU_HEADER_LENGTH + Header(s);
      Unframed(s[n..]);
      FrameAgain(s, s[PDU_HEADER_LENGTH..n]);
      OneMoreUnframed(s, n, s[PDU_HEADER_LENGTH..n], Parse(s[n..]));
    } else {
      NothingFramed(s);
    }
  }

  lemma NothingFramed(s: seq<byte>)
    ensures s == Frames([]) + s && AllSized([])
  {
  }

  lemma OneMoreUnframed(s: seq<byte>, n: nat, first: Pdu, p: Parsed)
    requires n <= |s| && 1 <= |first| < 0x1_0000 && Frame(first) == s[..n]
    requires s[n..] == Frames(p.pdus) + p.rest && AllSized(p.pdus)
    ensures s == Frames([first] + p.pdus) + p.rest && AllSized([first] + p.pdus)
  {
    hide Frame;
    assert s == s[..n] + s[n..];
    assert ([first] + p.pdus)[1..] == p.pdus;
    assert Frame(first) + Frames(p.pdus) + p.rest == Frame(first) + (Frames(p.pdus) + p.rest);
  }

  lemma FrameAgain(s: seq<byte>, first: Pdu)
    requires HasFrame(s) && first == s[PDU_HEADER_LENGTH..PDU_HEADER_LENGTH + Header(s)]
    ensures Frame(first) == s[..PDU_HEADER_LENGTH + Header(s)] && 1 <= |first| < 0x1_0000
  {
    hide ByteOf, ByteVal;
    var high, low := ByteVal(s[0]), ByteVal(s[1]);
    SameLengthOctets(high, low, |first|);
    ByteOfVal(s[0]);
    ByteOfVal(s[1]);
    TwoAndRest(Frame(first), s[..PDU_HEADER_LENGTH + Header(s)]);
  }

  lemma SameLengthOctets(high: int, low: int, n: int)
    requires 0 <= high < 256 && 0 <= low < 256 && n == high * 256 + low
    ensures n / 256 == high && n % 256 == low
  {
  }

  lemma TwoAndRest(f: seq<byte>, t: seq<byte>)
    requires |f| == |t| >= 2 && f[0] == t[0] && f[1] == t[1] && f[2..] == t[2..]
    ensures f == t
  {
    assert f == [f[0], f[1]] + f[2..] && t == [t[0], t[1]] + t[2..];
  }

  lemma {:induction false} FramesConcat(ps: seq<Pdu>, qs: seq<Pdu>)
    ensures Frames(ps + qs) == Frames(ps) + Frames(qs)
  {
    if ps == [] {
      assert ps + qs == qs;
    } else {
      assert (ps + qs)[1..] == ps[1..] + qs;
      FramesConcat(ps[1..], qs);
    }
  }

  /**
   * Any initial part of a well-framed stream queues exactly the first PDUs in order and leaves a
   * proper initial part of the next frame, so at least one octet of receive room remains.
   */
  lemma {:induction false} ParsePrefix(s: seq<byte>, ps: seq<Pdu>)
    requires s <= Frames(ps) && AllFramable(ps)
    ensures IsPartOf(Parse(s), s, ps)
  {
    hide Parse, Frame, IsPartOf;
    if ps == [] {
      Exhausted(s);
    } else {
      var f := Frame(ps[0]);
      if |s| < |f| {
        assert s == f[..|s|];
        Unfinished(s, ps);
      } else {
        var t := s[|f|..];
        assert s == f + t;
        assert t <= Frames(ps[1..]);
        ParseFrame(ps[0], t);
        ParsePrefix(t, ps[1..]);
        OneMore(Parse(t), t, ps);
      }
    }
  }

  /** What `ParsePrefix` promises. */
  ghost predicate IsPartOf(r: Parsed, s: seq<byte>, ps: seq<Pdu>) {
    && r.pdus <= ps
    && Frames(r.pdus) + r.rest == s
    && |r.rest| < BUFFER_KSIZE
    && (if |r.pdus| < |ps| then r.rest < Frame(ps[|r.pdus|]) else r.rest == [])
  }

  lemma Exhausted(s: seq<byte>)
    requires s == []
    ensures IsPartOf(Parse(s), s, [])
  {
  }

  lemma Unfinished(s: seq<byte>, ps: seq<Pdu>)
    requires ps != [] && Framable(ps[0]) && s < Frame(ps[0])
    ensures IsPartOf(Parse(s), s, ps)
  {
    HeaderOfFrame(ps[0], []);
    assert Frame(ps[0]) + [] == Frame(ps[0]);
    assert |s| >= PDU_HEADER_LENGTH ==> Header(s) == |ps[0]|;
    assert !HasFrame(s);
    assert Frames([]) + s == s;
  }

  lemma OneMore(r: Parsed, t: seq<byte>, ps: seq<Pdu>)
    requires ps != [] && IsPartOf(r, t, ps[1..])
    ensures IsPartOf(Parsed([ps[0]] + r.pdus, r.rest), Frame(ps[0]) + t, ps)
  {
    hide Frame;
    var q := [ps[0]] + r.pdus;
    assert q[1..] == r.pdus;
    assert Frames(q) + r.rest == Frame(ps[0]) + (Frames(r.pdus) + r.rest);
    assert ps == [ps[0]] + ps[1..];
  }

  /** A header that no later data can complete inside the buffer: zero, or more than the buffer holds. */
  predicate Stuck(rest: seq<byte>) {
    if |rest| >= PDU_HEADER_LENGTH then Header(rest) == 0 || Header(rest) > BUFFER_KSIZE - PDU_HEADER_LENGTH
    else |rest| == 1 && ByteVal(rest[0]) >= 4
  }

  /**
   * For any stream at all, received data can still complete a frame exactly when the leftover is not
   * stuck; a leftover that is not stuck always leaves room to receive into.
   */
  lemma StuckExactly(rest: seq<byte>)
    requires !HasFrame(rest) && |rest| <= BUFFER_KSIZE
    ensures Stuck(rest) <==> forall t: seq<byte> :: |rest + t| <= BUFFER_KSIZE ==>
            Parse(rest + t) == Parsed([], rest + t)
    ensures !Stuck(rest) ==> |rest| < BUFFER_KSIZE
  {
    hide Header;
    if Stuck(rest) {
      forall t: seq<byte> | |rest + t| <= BUFFER_KSIZE ensures Parse(rest + t) == Parsed([], rest + t) {
        StaysStuck(rest, t);
      }
    } else {
      var t := Completion(rest);
      assert HasFrame(rest + t);
    }
  }

  lemma StaysStuck(rest: seq<byte>, t: seq<byte>)
    requires Stuck(rest) && |rest + t| <= BUFFER_KSIZE
    ensures !HasFrame(rest + t)
  {
    var s := rest + t;
    assert s[0] == rest[0];
    if |rest| >= PDU_HEADER_LENGTH {
      assert s[1] == rest[1];
    }
  }

  /** Octets that complete the frame a leftover has begun. */
  lemma Completion(rest: seq<byte>) returns (t: seq<byte>)
    requires !HasFrame(rest) && !Stuck(rest) && |rest| <= BUFFER_KSIZE
    ensures |rest| < BUFFER_KSIZE && |rest + t| <= BUFFER_KSIZE && HasFrame(rest + t)
  {
    ByteValOf(0);
    ByteValOf(1);
    if |rest| >= PDU_HEADER_LENGTH {
      t := seq(PDU_HEADER_LENGTH + Header(rest) - |rest|, _ => 0);
      var s := rest + t;
      assert s[0] == rest[0] && s[1] == rest[1];
    } else if |rest| == 1 {
      var n := 0x100 * ByteVal(rest[0]) + 1;
      t := [ByteOf(1)] + seq(n, _ => 0);
      var s := rest + t;
      assert s[0] == rest[0] && s[1] == ByteOf(1);
    } else {
      t := [ByteOf(0), ByteOf(1), 0];
      assert rest + t == t;
    }
  }

  /** A frame without payload stops the stream, whatever is received after it. */
  lemma AnEmptyFrameStops(t: seq<byte>)
    requires |Frame([]) + t| <= BUFFER_KSIZE
    ensures Parse(Frame([]) + t) == Parsed([], Frame([]) + t)
  {
    ByteValOf(0);
    assert Header(Frame([])) == 0;
    StaysStuck(Frame([]), t);
  }
}

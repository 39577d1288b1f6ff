/**
 * A connection and its two 1024-octet buffers: `muxer/connection.h`, the buffer functions of
 * `muxer/dispatcher.c`, and the in-place framing of `common/pdu.c`. What the network answers to
 * `recv` and `send` is a parameter.
 */
module Connections {
  import opened Bytes
  import opened Pdus
  import opened Framing
  import opened Relay

  datatype Recv = Closed | WouldBlock | Failed | Data(bytes: seq<byte>)

  datatype Send = SendBlocked | SendFailed | Taken(n: nat)

  class Connection {
    const socket: int
    const rBuffer: array<byte>
    var rPtr: nat
    const wBuffer: array<byte>
    var wPtr: nat
    ghost var received: seq<byte>
    ghost var queued: seq<Pdu>
    ghost var sent: seq<byte>
    ghost var loaded: seq<Pdu>

    ghost predicate Valid()
      reads this
    {
      && rBuffer.Length == wBuffer.Length == BUFFER_KSIZE && rBuffer != wBuffer
      && rPtr <= BUFFER_KSIZE && wPtr <= BUFFER_KSIZE
    }

    ghost function State(): Link
      reads this, rBuffer, wBuffer
      requires Valid()
    {
      Link(rBuffer[..rPtr], wBuffer[..wPtr], received, queued, sent, loaded)
    }

    /** `alloc_connection` */
    constructor (socket: int)
      ensures Valid() && fresh(rBuffer) && fresh(wBuffer) && this.socket == socket
      ensures State() == FRESH_LINK
      ensures rPtr == wPtr == 0 && received == sent == [] && queued == loaded == []
    {
      this.socket := socket;
      rBuffer, rPtr := new byte[BUFFER_KSIZE](_ => 0), 0;
      wBuffer, wPtr := new byte[BUFFER_KSIZE](_ => 0), 0;
      received, queued, sent, loaded := [], [], [], [];
    }

    /** What `cleanup` does to the buffers of the server connection. */
    method Reset()
      requires Valid()
      modifies this`rPtr, this`wPtr, this`received, this`queued, this`sent, this`loaded
      ensures Valid() && State() == FRESH_LINK
      ensures rPtr == wPtr == 0 && received == sent == [] && queued == loaded == []
    {
      rPtr, wPtr := 0, 0;
      received, queued, sent, loaded := [], [], [], [];
    }

    /** `read_data`: at most the free part of the buffer is offered to `recv`. */
    method ReadData(net: Recv) returns (ok: bool)
      requires Valid() && (net.Data? ==> 0 < |net.bytes| <= BUFFER_KSIZE - rPtr)
      modifies this`rPtr, this`received, rBuffer
      ensures Valid() && ok == (net.Data? || net.WouldBlock?)
      ensures var l := old(State());
              State() == if net.Data? then l.(r := l.r + net.bytes, received := l.received + net.bytes) else l
      ensures net.Data? ==> received == old(received) + net.bytes && rBuffer[..rPtr] == old(rBuffer[..rPtr]) + net.bytes
      ensures !net.Data? ==> received == old(received) && rBuffer[..rPtr] == old(rBuffer[..rPtr])
    {
      match net {
        case Closed => return false;
        case Failed => return false;
        case WouldBlock => return true;
        case Data(bytes) =>
          ghost var before := rBuffer[..rPtr];
          forall i | 0 <= i < |bytes| {
            rBuffer[rPtr + i] := bytes[i];
          }
          rPtr := rPtr + |bytes|;
          received := received + bytes;
          assert rBuffer[..rPtr] == before + bytes;
          return true;
      }
    }

    /** `read_pdus_from_recv_buffer`: complete frames are copied out and the buffer is shifted down. */
    method ReadPdus() returns (pdus: seq<Pdu>)
      requires Valid()
      modifies this`rPtr, this`queued, rBuffer
      ensures Valid()
      ensures var l := old(State());
              pdus == Parse(l.r).pdus && State() == l.(r := Parse(l.r).rest, queued := l.queued + pdus)
    {
      hide Parse, Header;
      pdus := [];
      ghost var r0 := rBuffer[..rPtr];
      assert [] + Parse(r0).pdus == Parse(r0).pdus;
      if rPtr < PDU_HEADER_LENGTH {
        NoFrame(r0);
        queued := queued + pdus;
        return;
      }
      var hLen := HeaderLength();
      while rPtr >= PDU_HEADER_LENGTH && 0 < hLen <= rPtr - PDU_HEADER_LENGTH
        invariant Valid() && queued == old(queued)
        invariant Parse(r0) == Parsed(pdus + Parse(rBuffer[..rPtr]).pdus, Parse(rBuffer[..rPtr]).rest)
        invariant rPtr >= PDU_HEADER_LENGTH ==> hLen == Header(rBuffer[..rPtr])
        decreases rPtr
      {
        ghost var r := rBuffer[..rPtr];
        var pdu := rBuffer[..rPtr][PDU_HEADER_LENGTH..PDU_HEADER_LENGTH + hLen];
        FirstFrame(r, pdus);
        ShiftDown(PDU_HEADER_LENGTH + hLen);
        pdus := pdus + [pdu];
        if rPtr < PDU_HEADER_LENGTH {
          break;
        }
        hLen := HeaderLength();
      }
      NoFrame(rBuffer[..rPtr]);
      assert pdus + [] == pdus;
      queued := queued + pdus;
    }

    /** The header at the front of the receive buffer, from network to host byte order. */
    method HeaderLength() returns (n: nat)
      requires Valid() && rPtr >= PDU_HEADER_LENGTH
      ensures n == Header(rBuffer[..rPtr]) == rBuffer[0] as int * 256 + rBuffer[1] as int
    {
      HeaderOctets(rBuffer[..rPtr]);
      n := ByteVal(rBuffer[0]) * 0x100 + ByteVal(rBuffer[1]);
    }

    /** `memmove_s` of what follows the first `n` octets to the front. */
    method ShiftDown(n: nat)
      requires Valid() && n <= rPtr
      modifies this`rPtr, rBuffer
      ensures Valid() && rBuffer[..rPtr] == old(rBuffer[..rPtr])[n..]
    {
      rPtr := rPtr - n;
      forall i | 0 <= i < rPtr {
        rBuffer[i] := rBuffer[i + n];
      }
    }

    /** `write_pdu_to_send_buffer`, for an empty buffer; the source asserts the bounds. */
    method Load(pdu: Pdu)
      requires Valid() && wPtr == 0
      requires PDU_HEADER_LENGTH <= |pdu| <= BUFFER_KSIZE - PDU_HEADER_LENGTH
      modifies this`wPtr, this`loaded, wBuffer
      ensures Valid() && State() == LinkLoad(old(State()), pdu)
      ensures wPtr == |pdu| + 2 && loaded == old(loaded) + [pdu]
      ensures wBuffer[0] as int == |pdu| / 256 && wBuffer[1] as int == |pdu| % 256 && wBuffer[2..wPtr] == pdu
    {
      hide ByteOf;
      forall i | 0 <= i < |pdu| {
        wBuffer[i] := 0;
      }
      var high, low := ByteOf(|pdu| / 0x100), ByteOf(|pdu| % 0x100);
      wBuffer[0], wBuffer[1] := high, low;
      forall i | 0 <= i < |pdu| {
        wBuffer[PDU_HEADER_LENGTH + i] := pdu[i];
      }
      wPtr := PDU_HEADER_LENGTH + |pdu|;
      loaded := loaded + [pdu];
      assert wBuffer[..wPtr] == [high, low] + pdu;
      TwoOctetsOf(|pdu|);
    }

    /** `write_data`: what the network did not take is moved to the front. */
    method WriteData(net: Send) returns (ok: bool)
      requires Valid() && (net.Taken? ==> net.n <= wPtr)
      modifies this`wPtr, this`sent, wBuffer
      ensures Valid() && ok == (old(wPtr) == 0 || !net.SendFailed?)
      ensures State() == if net.Taken? then LinkSend(old(State()), net.n) else old(State())
      ensures net.Taken? ==>
                && sent == old(sent) + old(wBuffer[..wPtr])[..net.n]
                && wBuffer[..wPtr] == old(wBuffer[..wPtr])[net.n..]
      ensures !net.Taken? ==> sent == old(sent) && wBuffer[..wPtr] == old(wBuffer[..wPtr])
    {
      if wPtr > 0 {
        if !net.Taken? {
          return net.SendBlocked?;
        }
        ghost var w := wBuffer[..wPtr];
        if net.n == wPtr {
          wPtr := 0;
        } else {
          wPtr := wPtr - net.n;
          forall i | 0 <= i < wPtr {
            wBuffer[i] := wBuffer[i + net.n];
          }
        }
        sent := sent + w[..net.n];
        assert wBuffer[..wPtr] == w[net.n..];
      }
      return true;
    }

    /** The two halves of receiving make one step of the state machine. */
    method Receive(net: Recv) returns (ok: bool, pdus: seq<Pdu>)
      requires Valid() && (net.Data? ==> 0 < |net.bytes| <= BUFFER_KSIZE - rPtr)
      modifies this`rPtr, this`received, this`queued, rBuffer
      ensures Valid() && ok == (net.Data? || net.WouldBlock?)
      ensures ok ==> var data := if net.Data? then net.bytes else [];
                     State() == LinkReceive(old(State()), data) && pdus == Parse(old(State()).r + data).pdus
      ensures var r, data := old(rBuffer[..rPtr]), if net.Data? then net.bytes else [];
              && received == old(received) + data && queued == old(queued) + pdus
              && (ok ==> pdus == Parse(r + data).pdus && rBuffer[..rPtr] == Parse(r + data).rest)
      ensures !ok ==> State() == old(State()) && pdus == [] && rBuffer[..rPtr] == old(rBuffer[..rPtr])
    {
      hide Parse;
      pdus := [];
      ok := ReadData(net);
      if ok {
        assert old(State()).r + [] == old(State()).r && old(State()).received + [] == old(State()).received;
        pdus := ReadPdus();
      }
    }
  }

  lemma FirstFrame(r: seq<byte>, pdus: seq<Pdu>)
    requires HasFrame(r)
    ensures var n := PDU_HEADER_LENGTH + Header(r);
            var later := Parse(r[n..]);
            Parsed(pdus + Parse(r).pdus, Parse(r).rest) ==
              Parsed(pdus + [r[PDU_HEADER_LENGTH..n]] + later.pdus, later.rest)
  {
    var n := PDU_HEADER_LENGTH + Header(r);
    var later := Parse(r[n..]);
    assert pdus + ([r[PDU_HEADER_LENGTH..n]] + later.pdus) == pdus + [r[PDU_HEADER_LENGTH..n]] + later.pdus;
  }
}

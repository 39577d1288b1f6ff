/**
 * The buffers of the server connection (`read_out_socket` and `write_data_to_out_buffer` of
 * `muxer/dispatcher.c`): the heap connection and the heap queues together make the steps of the state
 * machine.
 */
module ServerSide {
  import opened Pdus
  import opened Framing
  import opened Relay
  import opened MuxerSystem
  import opened Queues
  import opened Connections
  import opened Walks

  /** `write_data_to_out_buffer`: one frame, and only into an empty buffer. */
  method WriteDataToOutBuffer(conn: Connection, wOut: Queue<Pdu>, ghost s: Sys)
    requires conn.Valid() && wOut.Valid() && conn.State() == s.server && wOut.Contents() == s.wOut
    requires |s.h.gens| == |s.mappings| && !s.locked
    requires forall i :: 0 <= i < |s.wOut| ==> PDU_HEADER_LENGTH <= |s.wOut[i]| <= BUFFER_KSIZE - PDU_HEADER_LENGTH
    modifies conn`wPtr, conn`loaded, conn.wBuffer, wOut, wOut.nodes`next, wOut.nodes`freed
    ensures conn.Valid() && wOut.Valid()
    ensures conn.State() == Next(s, LoadServer).server && wOut.Contents() == Next(s, LoadServer).wOut
    ensures old(conn.wPtr) == 0 && old(wOut.Contents()) != [] ==>
              var p := old(wOut.Contents())[0];
              && conn.wPtr == |p| + 2 && conn.wBuffer[2..conn.wPtr] == p
              && conn.wBuffer[0] as int == |p| / 256 && conn.wBuffer[1] as int == |p| % 256
              && conn.loaded == old(conn.loaded) + [p] && wOut.Contents() == old(wOut.Contents())[1..]
    ensures old(conn.wPtr) != 0 || old(wOut.Contents()) == [] ==>
              && conn.wPtr == old(conn.wPtr) && conn.wBuffer[..conn.wPtr] == old(conn.wBuffer[..conn.wPtr])
              && conn.loaded == old(conn.loaded) && wOut.Contents() == old(wOut.Contents())
  {
    hide Frame, Refs, Distinct, LinkLoad, Smaller;
    if conn.wPtr == 0 {
      var p := TakeFirst(wOut);
      match p {
        case Some(pdu) => conn.Load(pdu);
        case None =>
      }
    }
  }

  /** `read_data` and `read_data_from_out_buffer` */
  method ReadDataFromOutBuffer(conn: Connection, rOut: Queue<Pdu>, net: Recv, now: int, ghost s: Sys) returns (ok: bool)
    requires conn.Valid() && rOut.Valid() && conn.State() == s.server && rOut.Contents() == s.rOut
    requires |s.h.gens| == |s.mappings| && !s.locked
    requires (net.Data? ==> 0 < |net.bytes| <= BUFFER_KSIZE - conn.rPtr)
    modifies conn`rPtr, conn`received, conn`queued, conn.rBuffer, rOut, rOut.nodes`next
    ensures conn.Valid() && rOut.Valid() && ok == (net.Data? || net.WouldBlock?)
    ensures ok ==> var t := Next(s, ReceiveServer(if net.Data? then net.bytes else []));
                   conn.State() == t.server && rOut.Contents() == t.rOut
    ensures !ok ==> conn.State() == s.server && rOut.Contents() == s.rOut
    ensures var r, data := old(conn.rBuffer[..conn.rPtr]), if net.Data? then net.bytes else [];
            if ok then
              && conn.received == old(conn.received) + data && conn.rBuffer[..conn.rPtr] == Parse(r + data).rest
              && conn.queued == old(conn.queued) + Parse(r + data).pdus
              && rOut.Contents() == old(rOut.Contents()) + Parse(r + data).pdus
            else
              && conn.received == old(conn.received) && conn.rBuffer[..conn.rPtr] == r
              && conn.queued == old(conn.queued) && rOut.Contents() == old(rOut.Contents())
  {
    hide Parse, Refs, Distinct, LinkReceive, Renewed;
    var pdus;
    ok, pdus := conn.Receive(net);
    if ok {
      PutAll(rOut, pdus, now);
    }
  }
}

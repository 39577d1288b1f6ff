/** The macros of `common/pdu.h` that join the codec to the relay: a message in a 1024-octet stream. */
module Pdus {
  import opened Bits
  import opened Bytes
  import opened BitStreams
  import opened Messages

  const BUFFER_KSIZE: nat := 1024
  const PDU_HEADER_LENGTH: nat := 2

  /** The first `length` octets of the buffer of a `pdu_t`. */
  type Pdu = seq<byte>

  function InputPdu(m: Input): (p: Pdu)
    requires InputValid(m)
    ensures 4 <= |p| <= 266
  {
    InputRoundTrip(m, []);
    Pack(InputBits(m))
  }

  function OutputPdu(m: Output): (p: Pdu)
    requires OutputValid(m)
    ensures 6 <= |p| <= 523
  {
    OutputRoundTrip(m, []);
    Pack(OutputBits(m))
  }

  /** The zero-padded stream that a PDU is decoded from; `memcpy_s` copies nothing that does not fit. */
  function Padded(p: Pdu): (r: seq<bool>)
    ensures |r| == 8 * BUFFER_KSIZE
  {
    if |p| <= BUFFER_KSIZE then Unpack(p) + Zeros(8 * (BUFFER_KSIZE - |p|)) else Zeros(8 * BUFFER_KSIZE)
  }

  /** Every PDU, well formed or not, decodes to some valid request. */
  function DecodedInput(p: Pdu): (m: Input)
    ensures InputValid(m)
  {
    InputAlwaysDecodes(Padded(p));
    InputAt(Padded(p)).value.0
  }

  /** Every PDU, well formed or not, decodes to some valid reply. */
  function DecodedOutput(p: Pdu): (m: Output)
    ensures OutputValid(m)
  {
    OutputAlwaysDecodes(Padded(p));
    OutputAt(Padded(p)).value.0
  }

  lemma InputPduRoundTrip(m: Input)
    requires InputValid(m)
    ensures DecodedInput(InputPdu(m)) == m
  {
    hide InputBits, InputAt, Pack, Unpack;
    InputRoundTrip(m, []);
    UnpackPack(InputBits(m));
    InputRoundTrip(m, Zeros(8 * (BUFFER_KSIZE - |InputPdu(m)|)));
  }

  lemma OutputPduRoundTrip(m: Output)
    requires OutputValid(m)
    ensures DecodedOutput(OutputPdu(m)) == m
  {
    hide OutputBits, OutputAt, Pack, Unpack;
    OutputRoundTrip(m, []);
    UnpackPack(OutputBits(m));
    OutputRoundTrip(m, Zeros(8 * (BUFFER_KSIZE - |OutputPdu(m)|)));
  }

  // ---------------------------------------------------------------- encode_*_pdu, decode_*_pdu

  method EncodeInPdu(m: InputType) returns (err: int, pdu: Pdu)
    requires m.command.arr.Length == 256
    ensures (err == 0) == m.Valid()
    ensures err == 0 ==> pdu == InputPdu(m.Value())
  {
    hide InputBits, OutputBits, Unpack, Pack;
    var encodeBuf := new byte[BUFFER_KSIZE];
    var stream := new BitStream.Init(encodeBuf, BUFFER_KSIZE);
    ghost var valid := m.Valid();
    if valid { InputRoundTrip(m.Value(), []); }
    var ret;
    ret, err := m.Encode(stream, true, 0);
    pdu := [];
    if err == 0 {
      Finished(stream, InputBits(m.Value()));
      pdu := stream.buf[..stream.currentByte];
    }
  }

  method EncodeOutPdu(m: OutputType) returns (err: int, pdu: Pdu)
    requires m.Separate()
    ensures (err == 0) == m.Valid()
    ensures err == 0 ==> pdu == OutputPdu(m.Value())
  {
    hide InputBits, OutputBits, Unpack, Pack;
    var encodeBuf := new byte[BUFFER_KSIZE];
    var stream := new BitStream.Init(encodeBuf, BUFFER_KSIZE);
    ghost var valid := m.Valid();
    if valid { OutputRoundTrip(m.Value(), []); }
    var ret;
    ret, err := m.Encode(stream, true, 0);
    pdu := [];
    if err == 0 {
      Finished(stream, OutputBits(m.Value()));
      pdu := stream.buf[..stream.currentByte];
    }
  }

  /** A message ends on an octet boundary, so cutting the stream at `currentByte` loses nothing. */
  lemma Finished(s: BitStream, bits: seq<bool>)
    requires s.Writable() && [] + bits == s.Written() && |bits| % 8 == 0
    ensures s.currentBit == 0 && s.currentByte <= s.buf.Length && s.buf[..s.currentByte] == Pack(bits)
  {
    hide Unpack, Pack;
    assert [] + bits == bits;
    var b, n := s.buf[..s.count], s.currentByte;
    assert s.Pos() == |bits|;
    assert s.currentBit == s.Pos() % 8;
    UnpackTake(b, n);
    assert b[..n] == s.buf[..n];
    PackUnpack(b[..n]);
  }

  /** The zero-padded decoding stream of a PDU. */
  method PaddedStream(pdu: Pdu) returns (stream: BitStream)
    ensures fresh(stream) && fresh(stream.buf)
    ensures stream.Valid() && stream.Pos() == 0 && stream.count == stream.buf.Length == BUFFER_KSIZE
    ensures stream.Rest() == Padded(pdu)
  {
    var decodeBuf := new byte[BUFFER_KSIZE];
    forall i | 0 <= i < BUFFER_KSIZE {
      decodeBuf[i] := if |pdu| <= BUFFER_KSIZE && i < |pdu| then pdu[i] else 0;
    }
    stream := new BitStream.AttachBuffer(decodeBuf, BUFFER_KSIZE);
    PaddedBits(pdu, decodeBuf[..]);
  }

  lemma PaddedBits(pdu: Pdu, b: seq<byte>)
    requires |b| == BUFFER_KSIZE
    requires forall i :: 0 <= i < BUFFER_KSIZE ==> b[i] == if |pdu| <= BUFFER_KSIZE && i < |pdu| then pdu[i] else 0
    ensures Unpack(b) == Padded(pdu)
    ensures Unpack(b)[0..8 * |b|] == Padded(pdu)
  {
    hide Unpack;
    if |pdu| <= BUFFER_KSIZE {
      var z: seq<byte> := seq(BUFFER_KSIZE - |pdu|, _ => 0);
      assert b == pdu + z;
      UnpackConcat(pdu, z);
      UnpackZeros(BUFFER_KSIZE - |pdu|);
    } else {
      assert b == seq(BUFFER_KSIZE, _ => 0);
      UnpackZeros(BUFFER_KSIZE);
    }
  }

  method DecodeInPdu(m: InputType, pdu: Pdu) returns (err: int)
    requires m.command.arr.Length == 256
    modifies m, m.command, m.command.arr
    ensures err == 0 && m.Valid() && m.Value() == DecodedInput(pdu)
  {
    hide InputAt, Unpack;
    var stream := PaddedStream(pdu);
    InputAlwaysDecodes(Padded(pdu));
    var ret;
    ret, err := m.Decode(stream);
  }

  method DecodeOutPdu(m: OutputType, pdu: Pdu) returns (err: int)
    requires m.Separate()
    modifies m, m.command, m.command.arr, m.result, m.result.arr
    ensures err == 0 && m.Valid() && m.Value() == DecodedOutput(pdu)
  {
    hide OutputAt, Unpack;
    var stream := PaddedStream(pdu);
    OutputAlwaysDecodes(Padded(pdu));
    var ret;
    ret, err := m.Decode(stream);
  }
}
